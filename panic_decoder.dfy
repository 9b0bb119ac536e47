/** `AddressDecoder`: loads the subprograms and executable intervals of the
    built image, and annotates monitor output with the functions and source
    lines its addresses fall in. The source keeps this state in static fields;
    here it is one object. */
module PanicDecoder {
  import opened JsBase
  import opened DwarfModel
  import opened DebugImage
  import opened LineLookup
  import opened AddressLookup
  import opened LogAnnotator

  class AddressDecoder {
    var dwarfinfo: Option<DwarfInfo>
    var subprograms: seq<Die>
    var intervals: seq<Interval>
    var panicking: bool
    var sha: Option<string>

    function State(): DecoderState
      reads this
    {
      DecoderState(dwarfinfo, subprograms, intervals, panicking, sha)
    }

    predicate Valid()
      reads this
    {
      Consistent(State())
    }

    /** The static initialisers: no image, no subprograms or intervals. */
    constructor ()
      ensures State() == DecoderState(None, [], [], false, None)
      ensures Valid()
    {
      dwarfinfo, subprograms, intervals, panicking, sha := None, [], [], false, None;
    }

    /** `update`: records the checksum of the image without its 9-byte header,
        then appends (never replaces) the selected subprograms and, unless the
        selection threw, the executable intervals, and sorts the intervals.
        `sha256` and `parse` stand for `getSHA256` and the ELF library; `parse`
        gives none when the library throws. */
    method Update(buffer: seq<byte>, sha256: seq<byte> -> string, parse: seq<byte> -> Option<ElfFile>)
      returns (threw: bool)
      requires Valid()
      modifies this
      ensures Valid()
      ensures sha == Some(sha256(StripHeader(buffer)))
      ensures panicking == old(panicking)
      ensures parse(StripHeader(buffer)).None? ==>
        (threw && dwarfinfo == old(dwarfinfo) && subprograms == old(subprograms) && intervals == old(intervals))
      ensures parse(StripHeader(buffer)).Some? ==>
        var elf := parse(StripHeader(buffer)).value;
        var sel := Select(NoneSelected, Candidates(elf.dwarf.cus));
        (dwarfinfo == Some(elf.dwarf) && subprograms == old(subprograms) + sel.kept && threw == sel.threw
         && intervals == (if sel.threw then old(intervals) else SortByStart(old(intervals) + ExecIntervals(elf.sections))))
    {
      var body := StripHeader(buffer);
      sha := Some(sha256(body));
      var parsed := parse(body);
      if parsed.None? {
        return true;
      }
      var elf := parsed.value;
      dwarfinfo := Some(elf.dwarf);
      threw := CollectSubprograms(elf.dwarf.cus);
      if threw {
        return;
      }
      AddExecIntervals(elf.sections);
    }

    /** The outer loop of `update`, over the compile units. */
    method CollectSubprograms(cus: seq<CompileUnit>) returns (threw: bool)
      requires forall k :: 0 <= k < |subprograms| ==> Kept(subprograms[k])
      modifies this`subprograms
      ensures forall k :: 0 <= k < |subprograms| ==> Kept(subprograms[k])
      ensures subprograms == old(subprograms) + Select(NoneSelected, Candidates(cus)).kept
      ensures threw == Select(NoneSelected, Candidates(cus)).threw
    {
      var i := 0;
      while i < |cus|
        invariant 0 <= i <= |cus|
        invariant subprograms == old(subprograms) + Select(NoneSelected, Candidates(cus[..i])).kept
        invariant !Select(NoneSelected, Candidates(cus[..i])).threw
        invariant forall k :: 0 <= k < |subprograms| ==> Kept(subprograms[k])
      {
        ghost var before := subprograms;
        threw := CollectFromDies(cus[i].dies);
        UnitStep(cus, i, old(subprograms), before, subprograms);
        if threw {
          return;
        }
        i := i + 1;
      }
      assert cus[..i] == cus;
      threw := false;
    }

    /** The middle loop of `update`, over the entries of one compile unit. */
    method CollectFromDies(dies: seq<Die>) returns (threw: bool)
      requires forall k :: 0 <= k < |subprograms| ==> Kept(subprograms[k])
      modifies this`subprograms
      ensures forall k :: 0 <= k < |subprograms| ==> Kept(subprograms[k])
      ensures subprograms == old(subprograms) + Select(NoneSelected, ChildrenOf(dies)).kept
      ensures threw == Select(NoneSelected, ChildrenOf(dies)).threw
    {
      var j := 0;
      while j < |dies|
        invariant 0 <= j <= |dies|
        invariant subprograms == old(subprograms) + Select(NoneSelected, ChildrenOf(dies[..j])).kept
        invariant !Select(NoneSelected, ChildrenOf(dies[..j])).threw
        invariant forall k :: 0 <= k < |subprograms| ==> Kept(subprograms[k])
      {
        var die := dies[j];
        ghost var before := subprograms;
        threw := false;
        if die.hasChildren {
          threw := SelectChildren(die.children);
        }
        DieStep(dies, j, old(subprograms), before, subprograms);
        if threw {
          return;
        }
        j := j + 1;
      }
      assert dies[..j] == dies;
      threw := false;
    }

    /** The innermost loop of `update`: keeps the children that are subprograms
        with a positive low pc and high-pc offset, and throws at one with a
        positive low pc and no high pc. */
    method SelectChildren(children: seq<Die>) returns (threw: bool)
      requires forall k :: 0 <= k < |subprograms| ==> Kept(subprograms[k])
      modifies this`subprograms
      ensures forall k :: 0 <= k < |subprograms| ==> Kept(subprograms[k])
      ensures subprograms == old(subprograms) + Select(NoneSelected, children).kept
      ensures threw == Select(NoneSelected, children).threw
    {
      var k := 0;
      while k < |children|
        invariant 0 <= k <= |children|
        invariant subprograms == old(subprograms) + Select(NoneSelected, children[..k]).kept
        invariant !Select(NoneSelected, children[..k]).threw
        invariant forall n :: 0 <= n < |subprograms| ==> Kept(subprograms[n])
      {
        var child := children[k];
        assert children[..k + 1][..k] == children[..k];
        if child.tag == SubprogramTag {
          if child.lowPc.Some? && child.lowPc.value > 0 {
            if child.highPc.None? {
              SelectStopsAtThrow(children[..k + 1], children);
              return true;
            }
            if child.highPc.value > 0 {
              subprograms := subprograms + [child];
            }
          }
        }
        k := k + 1;
      }
      assert children[..k] == children;
      return false;
    }

    /** The loop of `update` over the sections, then the sort. */
    method AddExecIntervals(sections: seq<Section>)
      modifies this`intervals
      ensures intervals == SortByStart(old(intervals) + ExecIntervals(sections))
    {
      var m := 0;
      while m < |sections|
        invariant 0 <= m <= |sections|
        invariant intervals == old(intervals) + ExecIntervals(sections[..m])
      {
        assert sections[..m + 1][..m] == sections[..m];
        if sections[m].execinstr {
          var addr := sections[m].addr;
          intervals := intervals + [Interval(addr, addr + sections[m].size)];
        }
        m := m + 1;
      }
      assert sections[..m] == sections;
      intervals := SortByStart(intervals);
    }

    /** `decode(address, outputFn)`, with the message it outputs as its result. */
    method Decode(address: nat) returns (r: Outcome<Option<string>>)
      requires Valid()
      ensures r == AddressLookup.Decode(State(), address)
    {
      var n := 0;
      while n < |intervals|
        invariant 0 <= n <= |intervals|
        invariant forall k :: 0 <= k < n ==> intervals[k].start <= address && !InInterval(intervals[k], address)
      {
        var iv := intervals[n];
        if iv.start > address {
          return Normal(None);
        } else if iv.start <= address < iv.end {
          break;
        }
        n := n + 1;
      }
      assert Admitted(intervals, address);
      var k := 0;
      while k < |subprograms|
        invariant 0 <= k <= |subprograms|
        invariant FirstCovering(subprograms, address, k) == FirstCovering(subprograms, address, 0)
      {
        var subprogram := subprograms[k];
        var lowPc := subprogram.lowPc.value;
        var highPc := subprogram.highPc.value + lowPc;
        if address >= lowPc && address < highPc {
          if subprogram.name.None? {
            return Thrown;
          }
          var line := CheckLineprogram(subprogram.cuOffset, address);
          if line.Thrown? {
            return Thrown;
          }
          return Normal(Some("0x" + ToHex(address) + ": " + subprogram.name.value + " at " + line.value));
        }
        k := k + 1;
      }
      return Normal(None);
    }

    /** `checkLineprogram(cu, address)`: walks the rows of the unit's line
        program, carrying the previous row, until a row's address passes the
        address. */
    method CheckLineprogram(cuOffset: nat, address: int) returns (r: Outcome<string>)
      ensures r == LineOf(dwarfinfo, cuOffset, address)
    {
      if dwarfinfo.None? {
        return Thrown;
      }
      var info := dwarfinfo.value;
      if cuOffset !in info.linePrograms {
        return Normal("");
      }
      var lineprog := info.linePrograms[cuOffset];
      var header := lineprog.header;
      var entries := lineprog.entries;
      var delta := IndexBase(header);
      var prevstate: Option<LineState> := None;
      var n := 0;
      while n < |entries|
        invariant 0 <= n <= |entries|
        invariant prevstate == PrevBefore(entries, n)
        invariant FirstHit(entries, address, n) == FirstHit(entries, address, 0)
      {
        var entry := entries[n];
        if entry.state.None? {
          n := n + 1;
          continue;
        }
        var state := entry.state.value;
        if prevstate.Some? && prevstate.value.address <= address && address < state.address {
          assert Hit(entries, n, address);
          assert LineOf(dwarfinfo, cuOffset, address) == RowLocation(header, prevstate.value);
          var fileIndex := prevstate.value.file - delta;
          if !(0 <= fileIndex < |header.fileEntry|) {
            return Thrown;
          }
          var filename := header.fileEntry[fileIndex];
          return Normal(LocationText(DirectoryOf(header, filename), filename.name, prevstate.value));
        }
        assert !Hit(entries, n, address);
        if state.endSequence {
          prevstate := None;
        } else {
          prevstate := Some(state);
        }
        n := n + 1;
      }
      return Normal("");
    }

    /** The loop of `parser` over a line's address tokens: the annotations
        output, whether a decode threw (ending the loop), and whether any
        address was decoded. */
    method DecodeAll(addrs: seq<nat>) returns (notes: seq<string>, threw: bool, decoded: bool)
      requires Valid()
      ensures Annotated(notes, threw, decoded) == AnnotateAll(State(), addrs)
    {
      notes, decoded := [], false;
      var n := 0;
      while n < |addrs|
        invariant 0 <= n <= |addrs|
        invariant AnnotateAll(State(), addrs[..n]) == Annotated(notes, false, decoded)
      {
        var r := Decode(addrs[n]);
        assert addrs[..n + 1][..n] == addrs[..n];
        if r.Thrown? {
          AnnotateAfterThrow(State(), addrs, n + 1);
          return notes, true, decoded;
        }
        if r.value.Some? {
          notes := notes + [Annotation(r.value.value)];
          decoded := true;
        }
        n := n + 1;
      }
      assert addrs[..n] == addrs;
      threw := false;
    }

    /** `parser(line, outputFn)`, with the lines it outputs and whether it threw. */
    method Parser(line: string) returns (out: seq<string>, threw: bool)
      requires Valid()
      modifies this`panicking
      ensures Valid()
      ensures Parsed(out, threw, panicking) == Parse(old(State()), line)
    {
      var addrs := Addresses(line);
      if addrs != [] {
        var notes, decoded;
        notes, threw, decoded := DecodeAll(addrs);
        out := [line] + notes;
        if decoded && !threw {
          out := out + [""];
        }
        return;
      }
      if IsRegisterDump(line) {
        panicking := true;
      } else if Contains(line, HashMarker) {
        var hash := ExtractHash(line);
        if hash != "" {
          panicking := false;
          out := [line];
          ghost var st := old(State());
          assert Addresses(line) == [] && !IsRegisterDump(line) && st.sha == sha;
          if sha.None? {
            assert Parse(st, line) == Parsed(out, true, false);
            return out, true;
          }
          if !StartsWith(sha.value, hash) {
            out := out + [Annotation(ChecksumWarning + sha.value)];
          } else {
            assert out == [line] + [];
          }

          return out, false;
        }
      }
      return [line], false;
    }
  }
}
