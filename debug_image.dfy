/** What `AddressDecoder.update` extracts from a parsed image: the subprogram
    list and the sorted list of executable intervals. */
module DebugImage {
  import opened JsBase
  import opened DwarfModel

  /** `elfFileBuffer.slice(9)`: the image without its 9-byte container header. */
  function StripHeader(buffer: seq<byte>): (body: seq<byte>)
    ensures |buffer| >= 9 ==> buffer[..9] + body == buffer
    ensures |buffer| < 9 ==> body == []
  {
    if |buffer| >= 9 then buffer[9..] else []
  }

  // ---------------------------------------------------------------------------
  // Subprograms

  /** The children of every entry that has children, in entry order; deeper
      descendants are not included. */
  function ChildrenOf(dies: seq<Die>): seq<Die> {
    if dies == [] then []
    else
      var d := dies[|dies| - 1];
      ChildrenOf(dies[..|dies| - 1]) + (if d.hasChildren then d.children else [])
  }

  /** Every entry the loops of `update` visit, compile unit by compile unit. */
  function Candidates(cus: seq<CompileUnit>): seq<Die> {
    if cus == [] then [] else Candidates(cus[..|cus| - 1]) + ChildrenOf(cus[|cus| - 1].dies)
  }

  /** The entries `update` keeps: subprograms with a positive low pc and a positive
      high-pc offset. */
  predicate Kept(d: Die) {
    d.tag == SubprogramTag && d.lowPc.Some? && d.lowPc.value > 0
    && d.highPc.Some? && d.highPc.value > 0
  }

  /** A subprogram with a positive low pc and no `DW_AT_high_pc`: reading
      `highPc.value` throws. */
  predicate Throws(d: Die) {
    d.tag == SubprogramTag && d.lowPc.Some? && d.lowPc.value > 0 && d.highPc.None?
  }

  /** The entries pushed so far, and whether the loop has thrown. */
  datatype Selection = Selection(kept: seq<Die>, threw: bool)

  function SelectStep(sel: Selection, d: Die): Selection {
    if sel.threw then sel
    else if Throws(d) then Selection(sel.kept, true)
    else if Kept(d) then Selection(sel.kept + [d], false)
    else sel
  }

  /** The selection loop run over `ds` from the state `sel`. */
  function Select(sel: Selection, ds: seq<Die>): Selection {
    if ds == [] then sel else SelectStep(Select(sel, ds[..|ds| - 1]), ds[|ds| - 1])
  }

  const NoneSelected: Selection := Selection([], false)

  lemma {:induction false} SelectAppend(sel: Selection, a: seq<Die>, b: seq<Die>)
    ensures Select(sel, a + b) == Select(Select(sel, a), b)
    decreases |b|
  {
    if b == [] {
      assert a + b == a;
    } else {
      assert (a + b)[..|a + b| - 1] == a + b[..|b| - 1];
      SelectAppend(sel, a, b[..|b| - 1]);
    }
  }

  lemma {:induction false} SelectAfterThrow(sel: Selection, ds: seq<Die>)
    requires sel.threw
    ensures Select(sel, ds) == sel
    decreases |ds|
  {
    if ds != [] { SelectAfterThrow(sel, ds[..|ds| - 1]); }
  }

  /** Once the loop has thrown, visiting more entries changes nothing. */
  lemma SelectStopsAtThrow(p: seq<Die>, q: seq<Die>)
    requires p <= q && Select(NoneSelected, p).threw
    ensures Select(NoneSelected, q) == Select(NoneSelected, p)
  {
    assert q == p + q[|p|..];
    SelectAppend(NoneSelected, p, q[|p|..]);
    SelectAfterThrow(Select(NoneSelected, p), q[|p|..]);
  }

  /** When nothing throws, exactly the kept entries are selected, in visiting order. */
  lemma {:induction false} SelectFilters(ds: seq<Die>)
    requires forall k :: 0 <= k < |ds| ==> !Throws(ds[k])
    ensures !Select(NoneSelected, ds).threw
    ensures Select(NoneSelected, ds).kept == Filter(ds)
    decreases |ds|
  {
    if ds != [] { SelectFilters(ds[..|ds| - 1]); }
  }

  /** The loop throws exactly when some visited entry throws, and then it has
      kept exactly the kept entries before the first such entry. */
  lemma {:induction false} SelectThrows(ds: seq<Die>, k: nat)
    requires k < |ds| && Throws(ds[k]) && forall j :: 0 <= j < k ==> !Throws(ds[j])
    ensures Select(NoneSelected, ds) == Selection(Filter(ds[..k]), true)
  {
    SelectFilters(ds[..k]);
    assert ds[..k + 1][..k] == ds[..k];
    SelectStopsAtThrow(ds[..k + 1], ds);
  }

  function Filter(ds: seq<Die>): (r: seq<Die>)
    ensures forall k :: 0 <= k < |r| ==> Kept(r[k])
  {
    if ds == [] then []
    else Filter(ds[..|ds| - 1]) + (if Kept(ds[|ds| - 1]) then [ds[|ds| - 1]] else [])
  }

  lemma {:induction false} ChildrenOfPrefix(dies: seq<Die>, j: nat)
    requires j <= |dies|
    ensures ChildrenOf(dies[..j]) <= ChildrenOf(dies)
    decreases |dies|
  {
    if j < |dies| {
      var init := dies[..|dies| - 1];
      assert init[..j] == dies[..j];
      ChildrenOfPrefix(init, j);
    } else {
      assert dies[..j] == dies;
    }
  }

  lemma {:induction false} CandidatesPrefix(cus: seq<CompileUnit>, i: nat)
    requires i <= |cus|
    ensures Candidates(cus[..i]) <= Candidates(cus)
    decreases |cus|
  {
    if i < |cus| {
      var init := cus[..|cus| - 1];
      assert init[..i] == cus[..i];
      CandidatesPrefix(init, i);
    } else {
      assert cus[..i] == cus;
    }
  }

  /** Selecting from a state that has kept some entries keeps them in front. */
  lemma {:induction false} SelectShift(kept: seq<Die>, ds: seq<Die>)
    ensures Select(Selection(kept, false), ds)
      == Selection(kept + Select(NoneSelected, ds).kept, Select(NoneSelected, ds).threw)
    decreases |ds|
  {
    if ds == [] {
      assert kept + [] == kept;
    } else {
      SelectShift(kept, ds[..|ds| - 1]);
      var prev := Select(NoneSelected, ds[..|ds| - 1]);
      if !prev.threw && Kept(ds[|ds| - 1]) {
        assert kept + (prev.kept + [ds[|ds| - 1]]) == kept + prev.kept + [ds[|ds| - 1]];
      }
    }
  }

  /** Selecting from two runs of entries in turn, when the first does not throw. */
  lemma SelectConcat(a: seq<Die>, b: seq<Die>)
    requires !Select(NoneSelected, a).threw
    ensures Select(NoneSelected, a + b)
      == Selection(Select(NoneSelected, a).kept + Select(NoneSelected, b).kept, Select(NoneSelected, b).threw)
  {
    SelectAppend(NoneSelected, a, b);
    SelectShift(Select(NoneSelected, a).kept, b);
  }

  /** One step of the loop over a compile unit's entries. */
  lemma SelectNextDie(dies: seq<Die>, j: nat)
    requires j < |dies| && !Select(NoneSelected, ChildrenOf(dies[..j])).threw
    ensures var d := dies[j];
      Select(NoneSelected, ChildrenOf(dies[..j + 1])) ==
        if d.hasChildren then
          Selection(Select(NoneSelected, ChildrenOf(dies[..j])).kept + Select(NoneSelected, d.children).kept,
                    Select(NoneSelected, d.children).threw)
        else Select(NoneSelected, ChildrenOf(dies[..j]))
  {
    assert dies[..j + 1][..j] == dies[..j];
    var d := dies[j];
    if d.hasChildren {
      SelectConcat(ChildrenOf(dies[..j]), d.children);
    } else {
      assert ChildrenOf(dies[..j + 1]) == ChildrenOf(dies[..j]) + [];
      assert ChildrenOf(dies[..j]) + [] == ChildrenOf(dies[..j]);
    }
  }

  /** One step of the loop over compile units. */
  lemma SelectNextUnit(cus: seq<CompileUnit>, i: nat)
    requires i < |cus| && !Select(NoneSelected, Candidates(cus[..i])).threw
    ensures Select(NoneSelected, Candidates(cus[..i + 1])) ==
      Selection(Select(NoneSelected, Candidates(cus[..i])).kept + Select(NoneSelected, ChildrenOf(cus[i].dies)).kept,
                Select(NoneSelected, ChildrenOf(cus[i].dies)).threw)
  {
    assert cus[..i + 1][..i] == cus[..i];
    SelectConcat(Candidates(cus[..i]), ChildrenOf(cus[i].dies));
  }

  /** A throw in compile unit `i` ends the selection over all units. */
  lemma SelectUnitsStop(cus: seq<CompileUnit>, i: nat)
    requires i < |cus| && Select(NoneSelected, Candidates(cus[..i + 1])).threw
    ensures Select(NoneSelected, Candidates(cus)) == Select(NoneSelected, Candidates(cus[..i + 1]))
  {
    CandidatesPrefix(cus, i + 1);
    SelectStopsAtThrow(Candidates(cus[..i + 1]), Candidates(cus));
  }

  /** A throw at entry `j` ends the selection over the unit's entries. */
  lemma SelectDiesStop(dies: seq<Die>, j: nat)
    requires j < |dies| && Select(NoneSelected, ChildrenOf(dies[..j + 1])).threw
    ensures Select(NoneSelected, ChildrenOf(dies)) == Select(NoneSelected, ChildrenOf(dies[..j + 1]))
  {
    ChildrenOfPrefix(dies, j + 1);
    SelectStopsAtThrow(ChildrenOf(dies[..j + 1]), ChildrenOf(dies));
  }

  /** One turn of the loop over the compile units, on a list of stored
      subprograms that the previous turns extended from `base`. */
  lemma UnitStep(cus: seq<CompileUnit>, i: nat, base: seq<Die>, before: seq<Die>, after: seq<Die>)
    requires i < |cus| && !Select(NoneSelected, Candidates(cus[..i])).threw
    requires before == base + Select(NoneSelected, Candidates(cus[..i])).kept
    requires after == before + Select(NoneSelected, ChildrenOf(cus[i].dies)).kept
    ensures after == base + Select(NoneSelected, Candidates(cus[..i + 1])).kept
    ensures Select(NoneSelected, Candidates(cus[..i + 1])).threw == Select(NoneSelected, ChildrenOf(cus[i].dies)).threw
    ensures Select(NoneSelected, ChildrenOf(cus[i].dies)).threw ==>
      Select(NoneSelected, Candidates(cus)) == Select(NoneSelected, Candidates(cus[..i + 1]))
  {
    var kept := Select(NoneSelected, Candidates(cus[..i])).kept;
    var added := Select(NoneSelected, ChildrenOf(cus[i].dies)).kept;
    Associative(base, kept, added);
    SelectNextUnit(cus, i);
    if Select(NoneSelected, ChildrenOf(cus[i].dies)).threw {
      SelectUnitsStop(cus, i);
    }
  }

  /** One turn of the loop over a unit's entries. */
  lemma DieStep(dies: seq<Die>, j: nat, base: seq<Die>, before: seq<Die>, after: seq<Die>)
    requires j < |dies| && !Select(NoneSelected, ChildrenOf(dies[..j])).threw
    requires before == base + Select(NoneSelected, ChildrenOf(dies[..j])).kept
    requires after == if dies[j].hasChildren then before + Select(NoneSelected, dies[j].children).kept else before
    ensures after == base + Select(NoneSelected, ChildrenOf(dies[..j + 1])).kept
    ensures Select(NoneSelected, ChildrenOf(dies[..j + 1])).threw ==
      (dies[j].hasChildren && Select(NoneSelected, dies[j].children).threw)
    ensures Select(NoneSelected, ChildrenOf(dies[..j + 1])).threw ==>
      Select(NoneSelected, ChildrenOf(dies)) == Select(NoneSelected, ChildrenOf(dies[..j + 1]))
  {
    SelectNextDie(dies, j);
    if dies[j].hasChildren {
      var kept := Select(NoneSelected, ChildrenOf(dies[..j])).kept;
      var added := Select(NoneSelected, dies[j].children).kept;
      Associative(base, kept, added);
    }
    if Select(NoneSelected, ChildrenOf(dies[..j + 1])).threw {
      SelectDiesStop(dies, j);
    }
  }

  // ---------------------------------------------------------------------------
  // Executable intervals

  /** `[addr, addr + size)` for every section flagged `execinstr`, in section order. */
  function ExecIntervals(sections: seq<Section>): (r: seq<Interval>)
    ensures |r| <= |sections|
  {
    if sections == [] then []
    else
      var s := sections[|sections| - 1];
      ExecIntervals(sections[..|sections| - 1]) + (if s.execinstr then [SectionInterval(s)] else [])
  }

  function SectionInterval(s: Section): Interval {
    Interval(s.addr, s.addr + s.size)
  }

  /** An interval is listed exactly when some executable section spans it. */
  lemma {:induction false} ExecIntervalsExact(sections: seq<Section>, x: Interval)
    ensures x in ExecIntervals(sections) <==>
      exists i :: 0 <= i < |sections| && sections[i].execinstr && x == SectionInterval(sections[i])
    decreases |sections|
  {
    if sections != [] {
      var init, last := sections[..|sections| - 1], sections[|sections| - 1];
      var tail := if last.execinstr then [SectionInterval(last)] else [];
      assert ExecIntervals(sections) == ExecIntervals(init) + tail;
      assert x in ExecIntervals(sections) <==> x in ExecIntervals(init) || x in tail;
      ExecIntervalsExact(init, x);
      if x in ExecIntervals(init) {
        var i :| 0 <= i < |init| && init[i].execinstr && x == SectionInterval(init[i]);
        assert sections[i] == init[i];
      }
      if exists i :: 0 <= i < |sections| && sections[i].execinstr && x == SectionInterval(sections[i]) {
        var i :| 0 <= i < |sections| && sections[i].execinstr && x == SectionInterval(sections[i]);
        if i < |init| { assert init[i] == sections[i]; }
      }
    }
  }

  predicate SortedByStart(s: seq<Interval>) {
    forall i, j :: 0 <= i < j < |s| ==> s[i].start <= s[j].start
  }

  /** Inserts `x` after every element whose start is at most `x`'s, keeping the
      order of equal starts (`Array.prototype.sort` is stable). */
  function Insert(t: seq<Interval>, x: Interval): (r: seq<Interval>)
    requires SortedByStart(t)
    ensures SortedByStart(r)
    ensures multiset(r) == multiset(t) + multiset{x}
    ensures |r| == |t| + 1
  {
    if t == [] || t[|t| - 1].start <= x.start then t + [x]
    else
      var init, last := t[..|t| - 1], t[|t| - 1];
      assert t == init + [last];
      var rest := Insert(init, x);
      assert forall k :: 0 <= k < |rest| ==> rest[k].start <= last.start by {
        forall k | 0 <= k < |rest| ensures rest[k].start <= last.start {
          assert rest[k] in multiset(rest);
          if rest[k] != x {
            assert rest[k] in multiset(init);
            var i :| 0 <= i < |init| && init[i] == rest[k];
            assert t[i] == init[i];
          }
        }
      }
      rest + [last]
  }

  /** `intervals.sort((a, b) => a[0] - b[0])`. */
  function SortByStart(s: seq<Interval>): (r: seq<Interval>)
    ensures SortedByStart(r)
    ensures multiset(r) == multiset(s)
  {
    if s == [] then []
    else
      var init := s[..|s| - 1];
      assert s == init + [s[|s| - 1]];
      Insert(SortByStart(init), s[|s| - 1])
  }

  /** Sorting an already sorted list changes nothing. */
  lemma {:induction false} SortSorted(s: seq<Interval>)
    requires SortedByStart(s)
    ensures SortByStart(s) == s
  {
    if s != [] {
      var init := s[..|s| - 1];
      SortSorted(init);
    }
  }

  /** After `update` the intervals are sorted by start and are the old
      intervals together with one `[addr, addr + size)` per executable
      section, each as many times as it was listed. */
  lemma IntervalsAfterUpdate(before: seq<Interval>, sections: seq<Section>)
    ensures SortedByStart(SortByStart(before + ExecIntervals(sections)))
    ensures multiset(SortByStart(before + ExecIntervals(sections)))
      == multiset(before) + multiset(ExecIntervals(sections))
    ensures forall x :: x in SortByStart(before + ExecIntervals(sections)) <==>
      x in before || exists i :: 0 <= i < |sections| && sections[i].execinstr && x == SectionInterval(sections[i])
  {
    var r := SortByStart(before + ExecIntervals(sections));
    forall x
      ensures x in r <==>
        x in before || exists i :: 0 <= i < |sections| && sections[i].execinstr && x == SectionInterval(sections[i])
    {
      assert x in r <==> x in multiset(r);
      assert x in before + ExecIntervals(sections) <==> x in multiset(before + ExecIntervals(sections));
      ExecIntervalsExact(sections, x);
    }
  }

  /** Only direct children of root entries are visited: a subprogram nested in
      another subprogram is not kept. */
  lemma NestedSubprogramSkipped()
    ensures var inner := Die(SubprogramTag, Some(0x10), Some(4), Some("inner"), false, [], 0);
      var outer := Die(SubprogramTag, Some(0x20), Some(8), Some("outer"), true, [inner], 0);
      var root := Die("DW_TAG_compile_unit", None, None, None, true, [outer], 0);
      Select(NoneSelected, Candidates([CompileUnit(0, [root])])) == Selection([outer], false)
  {
    var inner := Die(SubprogramTag, Some(0x10), Some(4), Some("inner"), false, [], 0);
    var outer := Die(SubprogramTag, Some(0x20), Some(8), Some("outer"), true, [inner], 0);
    var root := Die("DW_TAG_compile_unit", None, None, None, true, [outer], 0);
    var cus := [CompileUnit(0, [root])];
    assert cus[..0] == [];
    assert [root][..0] == [];
    assert ChildrenOf([root]) == [outer];
    assert Candidates(cus) == [outer];
    assert [outer][..0] == [];
  }
}
