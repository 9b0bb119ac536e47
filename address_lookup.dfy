/** What `AddressDecoder.decode` reports for an address: the interval
    pre-check over the sorted executable intervals, the first subprogram whose
    range holds the address, and the message naming it and its source location. */
module AddressLookup {
  import opened JsBase
  import opened DwarfModel
  import opened DebugImage
  import opened LineLookup

  /** The decoder's static fields as one value. */
  datatype DecoderState = DecoderState(
    dwarfinfo: Option<DwarfInfo>,
    subprograms: seq<Die>,
    intervals: seq<Interval>,
    panicking: bool,
    sha: Option<string>)

  /** What the decoder's fields always satisfy: every stored subprogram has a
      positive low pc and a positive high-pc offset, and the intervals are sorted. */
  predicate Consistent(st: DecoderState) {
    (forall k :: 0 <= k < |st.subprograms| ==> Kept(st.subprograms[k]))
    && SortedByStart(st.intervals)
  }

  /** The pre-check passes unless, walking the intervals in order, one that
      starts above the address comes before any that holds it. */
  predicate Admitted(iv: seq<Interval>, a: int) {
    forall j :: 0 <= j < |iv| && iv[j].start > a ==>
      exists i :: 0 <= i < j && InInterval(iv[i], a)
  }

  /** On sorted intervals the pre-check passes exactly for an address inside some
      interval or at or above every interval's start, so an address past the end
      of the last executable section still passes, and one in a gap between
      sections does not. */
  lemma AdmittedSorted(iv: seq<Interval>, a: int)
    requires SortedByStart(iv)
    ensures Admitted(iv, a) <==>
      (exists i :: 0 <= i < |iv| && InInterval(iv[i], a))
      || (forall i :: 0 <= i < |iv| ==> iv[i].start <= a)
  {
    if (exists i :: 0 <= i < |iv| && InInterval(iv[i], a)) {
      var i0 :| 0 <= i0 < |iv| && InInterval(iv[i0], a);
      forall j | 0 <= j < |iv| && iv[j].start > a
        ensures exists i :: 0 <= i < j && InInterval(iv[i], a)
      {
        assert i0 < j;
      }
    }
  }

  /** `[DW_AT_low_pc, DW_AT_low_pc + DW_AT_high_pc)` of a stored subprogram. */
  predicate Covers(d: Die, a: int)
    requires Kept(d)
  {
    d.lowPc.value <= a < d.lowPc.value + d.highPc.value
  }

  /** The first subprogram whose range holds the address. */
  function FirstCovering(subs: seq<Die>, a: int, from: nat): (r: Option<nat>)
    requires from <= |subs|
    requires forall k :: 0 <= k < |subs| ==> Kept(subs[k])
    ensures r.Some? ==> from <= r.value < |subs| && Covers(subs[r.value], a)
    ensures r.Some? ==> forall k :: from <= k < r.value ==> !Covers(subs[k], a)
    ensures r.None? ==> forall k :: from <= k < |subs| ==> !Covers(subs[k], a)
    decreases |subs| - from
  {
    if from == |subs| then None
    else if Covers(subs[from], a) then Some(from)
    else FirstCovering(subs, a, from + 1)
  }

  /** `checkLineprogram(subprogram.cu, address)`: reading the line program
      throws while no image has been loaded. */
  function LineOf(dw: Option<DwarfInfo>, cuOffset: nat, a: int): Outcome<string> {
    match dw
    case None => Thrown
    case Some(info) =>
      Lookup(if cuOffset in info.linePrograms then Some(info.linePrograms[cuOffset]) else None, a)
  }

  /** `0x<address in hex>: <name> at <location>`. */
  function Message(a: nat, name: string, location: string): string {
    "0x" + ToHex(a) + ": " + name + " at " + location
  }

  /** `decode(address, outputFn)`: `Normal(None)` when it returns false,
      `Normal(Some(m))` when it outputs `m` and returns true, `Thrown` when the
      subprogram has no `DW_AT_name` or the line lookup throws. */
  function Decode(st: DecoderState, a: nat): Outcome<Option<string>>
    requires Consistent(st)
  {
    if !Admitted(st.intervals, a) then Normal(None)
    else match FirstCovering(st.subprograms, a, 0)
      case None => Normal(None)
      case Some(k) =>
        var d := st.subprograms[k];
        if d.name.None? then Thrown
        else match LineOf(st.dwarfinfo, d.cuOffset, a)
          case Thrown => Thrown
          case Normal(location) => Normal(Some(Message(a, d.name.value, location)))
  }

  /** An address decodes to a message exactly when it passes the pre-check and a
      stored subprogram holds it; the message names the first such subprogram,
      and its address part reads back as the address. */
  lemma DecodeReports(st: DecoderState, a: nat)
    requires Consistent(st)
    ensures Decode(st, a) == Normal(None) <==>
      !Admitted(st.intervals, a) || forall k :: 0 <= k < |st.subprograms| ==> !Covers(st.subprograms[k], a)
    ensures Decode(st, a).Normal? && Decode(st, a).value.Some? ==>
      exists k, location ::
        0 <= k < |st.subprograms| && Covers(st.subprograms[k], a)
        && (forall j :: 0 <= j < k ==> !Covers(st.subprograms[j], a))
        && st.subprograms[k].name.Some?
        && LineOf(st.dwarfinfo, st.subprograms[k].cuOffset, a) == Normal(location)
        && Decode(st, a).value.value == Message(a, st.subprograms[k].name.value, location)
    ensures Decode(st, a).Normal? && Decode(st, a).value.Some? ==>
      StartsWith(Decode(st, a).value.value, "0x" + ToHex(a) + ": ") && ParseBase(ToHex(a), 16) == a
  {
    ParseToBase(a, 16);
  }

  /** The pre-check does not look at the subprograms: an address below the first
      interval is never decoded, whatever subprogram holds it. */
  lemma BelowFirstIntervalRejected(st: DecoderState, a: nat)
    requires Consistent(st) && |st.intervals| > 0 && a < st.intervals[0].start
    ensures Decode(st, a) == Normal(None)
  {
    assert !Admitted(st.intervals, a);
  }

  /** With no intervals the pre-check passes every address. */
  lemma NoIntervalsAdmitAll(st: DecoderState, a: nat)
    requires Consistent(st) && st.intervals == []
    ensures Decode(st, a) == Normal(None) <==>
      forall k :: 0 <= k < |st.subprograms| ==> !Covers(st.subprograms[k], a)
  {
    DecodeReports(st, a);
  }
}
