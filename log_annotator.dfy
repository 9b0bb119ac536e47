/** The text recognisers of the panic decoder and what `AddressDecoder.parser`
    outputs for one line of monitor output. */
module LogAnnotator {
  import opened JsBase
  import opened AddressLookup

  // ---------------------------------------------------------------------------
  // ADDRESS_RE: `0x` followed by eight hexadecimal digits, case-insensitive,
  // every non-overlapping occurrence from left to right.

  predicate IsAddressTokenAt(s: string, i: nat) {
    i + 10 <= |s| && s[i] == '0' && (s[i + 1] == 'x' || s[i + 1] == 'X')
    && forall k :: i + 2 <= k < i + 10 ==> IsHexDigit(s[k])
  }

  /** `line.match(ADDRESS_RE)` from position `from`, each match read with
      `parseInt(_, 16)` (which skips the `0x` prefix). */
  function AddressesFrom(s: string, from: nat): seq<nat>
    requires from <= |s|
    decreases |s| - from
  {
    if from == |s| then []
    else if IsAddressTokenAt(s, from) then [TokenValue(s[from + 2..from + 10])] + AddressesFrom(s, from + 10)
    else AddressesFrom(s, from + 1)
  }

  /** `parseInt(_, 16)` of a token's digits. */
  function TokenValue(digits: string): nat
    requires forall k :: 0 <= k < |digits| ==> IsHexDigit(digits[k])
  {
    ParseBase(digits, 16)
  }

  function Addresses(s: string): seq<nat> { AddressesFrom(s, 0) }

  /** `ADDRESS_RE.test(line)` holds exactly when `match` finds something; the
      global flag leaves nothing behind, because `match` restarts at position 0
      and ends with `lastIndex` back at 0. */
  lemma {:induction false} AddressesFound(s: string, from: nat)
    requires from <= |s|
    ensures AddressesFrom(s, from) != [] <==> exists i :: from <= i && IsAddressTokenAt(s, i)
    decreases |s| - from
  {
    if from < |s| && !IsAddressTokenAt(s, from) {
      AddressesFound(s, from + 1);
      if exists i :: from <= i && IsAddressTokenAt(s, i) {
        var i :| from <= i && IsAddressTokenAt(s, i);
        assert i != from;
      }
    }
  }

  function Pow16(n: nat): nat {
    if n == 0 then 1 else 16 * Pow16(n - 1)
  }

  /** A token of `n` hexadecimal digits reads as a value below `16^n`. */
  lemma {:induction false} TokenValueBound(digits: string)
    requires forall k :: 0 <= k < |digits| ==> IsHexDigit(digits[k])
    ensures TokenValue(digits) < Pow16(|digits|)
  {
    if digits != [] {
      TokenValueBound(digits[..|digits| - 1]);
    }
  }

  /** Every address found fits in 32 bits, so it is exact as a JavaScript number. */
  lemma {:induction false} AddressesFit(s: string, from: nat)
    requires from <= |s|
    ensures forall k :: 0 <= k < |AddressesFrom(s, from)| ==> AddressesFrom(s, from)[k] < 0x1_0000_0000
    decreases |s| - from
  {
    if from < |s| {
      if IsAddressTokenAt(s, from) {
        TokenValueBound(s[from + 2..from + 10]);
        assert Pow16(8) == 0x1_0000_0000;
        AddressesFit(s, from + 10);
      } else {
        AddressesFit(s, from + 1);
      }
    }
  }

  // ---------------------------------------------------------------------------
  // extractHash: `(?:I \(\d+\) cpu_start: )?ELF file SHA256:\s+(\w+)`.

  const HashMarker: string := "ELF file SHA256:"

  /** Where the space run after a marker at `i` ends. */
  function AfterSpaces(s: string, i: nat): nat
    requires i + |HashMarker| <= |s|
  {
    i + |HashMarker| + RunLength(s, i + |HashMarker|, IsRegexSpace)
  }

  /** The pattern matches at the marker at `i`: at least one space, then a word
      character. The optional `cpu_start` prefix does not change which marker
      matches, since it cannot overlap a marker. */
  predicate HashAt(s: string, i: nat) {
    OccursAt(s, HashMarker, i) && AfterSpaces(s, i) > i + |HashMarker|
    && AfterSpaces(s, i) < |s| && IsWordChar(s[AfterSpaces(s, i)])
  }

  /** The captured group: the whole word run after the spaces. */
  function HashWord(s: string, i: nat): string
    requires HashAt(s, i)
  {
    var w := AfterSpaces(s, i);
    s[w..w + RunLength(s, w, IsWordChar)]
  }

  /** The first marker at or after `from` where the pattern matches. */
  function FirstHashAt(s: string, from: nat): (r: Option<nat>)
    requires from <= |s|
    ensures r.Some? ==> from <= r.value && HashAt(s, r.value)
    ensures r.Some? ==> forall j: nat :: from <= j < r.value ==> !HashAt(s, j)
    ensures r.None? ==> forall j: nat :: from <= j ==> !HashAt(s, j)
    decreases |s| - from
  {
    if from == |s| then None
    else if HashAt(s, from) then Some(from)
    else FirstHashAt(s, from + 1)
  }

  /** `extractHash(line)`: the captured word of the first match, or "". */
  function ExtractHash(s: string): string {
    match FirstHashAt(s, 0)
    case None => ""
    case Some(i) => HashWord(s, i)
  }

  /** A run of spaces then a word character after the marker: the pattern of
      `extractHash` with its quantifiers' extents left free. */
  predicate HashSplit(s: string, i: nat, w: nat) {
    OccursAt(s, HashMarker, i) && i + |HashMarker| < w < |s|
    && (forall k :: i + |HashMarker| <= k < w ==> IsRegexSpace(s[k]))
    && IsWordChar(s[w])
  }

  lemma SpaceIsNotWord(c: char)
    ensures IsRegexSpace(c) ==> !IsWordChar(c) && !IsDecimalDigit(c)
  {
  }

  /** A run that ends where the class stops holding is the longest run. */
  lemma {:induction false} RunLengthExact(s: string, i: nat, j: nat, p: char -> bool)
    requires i <= j <= |s|
    requires forall k :: i <= k < j ==> p(s[k])
    requires j == |s| || !p(s[j])
    ensures RunLength(s, i, p) == j - i
    decreases j - i
  {
    if i < j {
      RunLengthExact(s, i + 1, j, p);
    }
  }

  /** The greedy reading matches exactly when some split does, and at the
      same word. */
  lemma HashAtSplit(s: string, i: nat)
    ensures HashAt(s, i) <==> exists w: nat :: HashSplit(s, i, w)
    ensures forall w: nat :: HashSplit(s, i, w) ==> w == AfterSpaces(s, i)
  {
    forall w: nat | HashSplit(s, i, w)
      ensures w == AfterSpaces(s, i)
    {
      SpaceIsNotWord(s[w]);
      RunLengthExact(s, i + |HashMarker|, w, IsRegexSpace);
    }
    if HashAt(s, i) {
      RunLengthMaximal(s, i + |HashMarker|, IsRegexSpace);
      assert HashSplit(s, i, AfterSpaces(s, i));
    }
  }

  /** The hash is the whole word run at the first marker that is followed by
      spaces and a word character, and it is empty exactly when there is none. */
  lemma ExtractHashFirst(s: string)
    ensures ExtractHash(s) == "" <==> forall i: nat :: !HashAt(s, i)
    ensures forall i: nat :: HashAt(s, i) && (forall j: nat :: j < i ==> !HashAt(s, j)) ==>
      ExtractHash(s) == HashWord(s, i)
    ensures forall k :: 0 <= k < |ExtractHash(s)| ==> IsWordChar(ExtractHash(s)[k])
  {
    var r := FirstHashAt(s, 0);
    if r.None? {
      assert ExtractHash(s) == "";
    } else {
      var w := AfterSpaces(s, r.value);
      assert ExtractHash(s) == HashWord(s, r.value);
      RunLengthMaximal(s, w, IsWordChar);
      assert RunLength(s, w, IsWordChar) >= 1;
      assert ExtractHash(s) != "";
      forall i: nat | HashAt(s, i) && (forall j: nat :: j < i ==> !HashAt(s, j))
        ensures i == r.value
      {
        assert HashAt(s, r.value);
      }
      forall k | 0 <= k < |ExtractHash(s)|
        ensures IsWordChar(ExtractHash(s)[k])
      {
        assert ExtractHash(s)[k] == s[w + k];
      }
    }
  }

  // ---------------------------------------------------------------------------
  // registerDump: `Core\s*\d+\s+register\s+dump:`.

  /** The greedy reading at `i`: as many spaces as there are, then the digits,
      then spaces, `register`, spaces and `dump:`. Each class is disjoint from
      the one after it, so no other extent of a quantifier could match. */
  predicate RegisterDumpAt(s: string, i: nat) {
    OccursAt(s, "Core", i)
    && var b := i + 4 + RunLength(s, i + 4, IsRegexSpace);
    var c := b + RunLength(s, b, IsDecimalDigit);
    var e := c + RunLength(s, c, IsRegexSpace);
    c > b && e > c && OccursAt(s, "register", e)
    && var f := e + 8 + RunLength(s, e + 8, IsRegexSpace);
    f > e + 8 && OccursAt(s, "dump:", f)
  }

  /** `registerDump.test(line)`. */
  predicate IsRegisterDump(s: string) {
    exists i: nat | i <= |s| :: RegisterDumpAt(s, i)
  }

  predicate AllIn(s: string, i: nat, j: nat, p: char -> bool)
    requires i <= j <= |s|
  {
    forall k :: i <= k < j ==> p(s[k])
  }

  /** The pattern with the extents of its quantifiers left free: spaces up to
      `b`, digits up to `c`, spaces up to `e`, `register`, spaces up to `f`,
      `dump:`. */
  predicate RegisterDumpSplit(s: string, i: nat, b: nat, c: nat, e: nat, f: nat) {
    OccursAt(s, "Core", i) && i + 4 <= b < c < e && e + 8 < f <= |s|
    && AllIn(s, i + 4, b, IsRegexSpace) && AllIn(s, b, c, IsDecimalDigit)
    && AllIn(s, c, e, IsRegexSpace) && OccursAt(s, "register", e)
    && AllIn(s, e + 8, f, IsRegexSpace) && OccursAt(s, "dump:", f)
  }

  /** The greedy reading at `i` is one of the splits. */
  lemma GreedyIsSplit(s: string, i: nat)
    requires RegisterDumpAt(s, i)
    ensures exists b: nat, c: nat, e: nat, f: nat :: RegisterDumpSplit(s, i, b, c, e, f)
  {
    var b := i + 4 + RunLength(s, i + 4, IsRegexSpace);
    var c := b + RunLength(s, b, IsDecimalDigit);
    var e := c + RunLength(s, c, IsRegexSpace);
    var f := e + 8 + RunLength(s, e + 8, IsRegexSpace);
    GreedySplit(s, i, b, c, e, f);
  }

  lemma GreedySplit(s: string, i: nat, b: nat, c: nat, e: nat, f: nat)
    requires i + 4 <= b < c < e && e + 8 < f <= |s|
    requires OccursAt(s, "Core", i) && OccursAt(s, "register", e) && OccursAt(s, "dump:", f)
    requires b == i + 4 + RunLength(s, i + 4, IsRegexSpace)
    requires c == b + RunLength(s, b, IsDecimalDigit)
    requires e == c + RunLength(s, c, IsRegexSpace)
    requires f == e + 8 + RunLength(s, e + 8, IsRegexSpace)
    ensures RegisterDumpSplit(s, i, b, c, e, f)
  {
    RunAllIn(s, i + 4, IsRegexSpace);
    RunAllIn(s, b, IsDecimalDigit);
    RunAllIn(s, c, IsRegexSpace);
    RunAllIn(s, e + 8, IsRegexSpace);
  }

  lemma RunAllIn(s: string, i: nat, p: char -> bool)
    requires i <= |s|
    ensures AllIn(s, i, i + RunLength(s, i, p), p)
  {
    RunLengthMaximal(s, i, p);
  }

  /** Every split is the greedy reading: each run ends where its class stops. */
  lemma SplitIsGreedy(s: string, i: nat, b: nat, c: nat, e: nat, f: nat)
    requires RegisterDumpSplit(s, i, b, c, e, f)
    ensures b == i + 4 + RunLength(s, i + 4, IsRegexSpace)
    ensures c == b + RunLength(s, b, IsDecimalDigit)
    ensures e == c + RunLength(s, c, IsRegexSpace)
    ensures f == e + 8 + RunLength(s, e + 8, IsRegexSpace)
    ensures RegisterDumpAt(s, i)
  {
    SpaceIsNotWord(s[b]);
    RunLengthExact(s, i + 4, b, IsRegexSpace);
    SpaceIsNotWord(s[c]);
    RunLengthExact(s, b, c, IsDecimalDigit);
    assert s[e] == "register"[0];
    RunLengthExact(s, c, e, IsRegexSpace);
    assert s[f] == "dump:"[0];
    RunLengthExact(s, e + 8, f, IsRegexSpace);
    GreedyAt(s, i, b, c, e, f);
  }

  lemma GreedyAt(s: string, i: nat, b: nat, c: nat, e: nat, f: nat)
    requires i + 4 <= b < c < e && e + 8 < f <= |s|
    requires OccursAt(s, "Core", i)
    requires b == i + 4 + RunLength(s, i + 4, IsRegexSpace)
    requires c == b + RunLength(s, b, IsDecimalDigit)
    requires e == c + RunLength(s, c, IsRegexSpace)
    requires f == e + 8 + RunLength(s, e + 8, IsRegexSpace)
    requires OccursAt(s, "register", e) && OccursAt(s, "dump:", f)
    ensures RegisterDumpAt(s, i)
  {
  }

  /** The greedy reading matches at `i` exactly when some split does. */
  lemma RegisterDumpAtSplit(s: string, i: nat)
    ensures RegisterDumpAt(s, i) <==> exists b: nat, c: nat, e: nat, f: nat :: RegisterDumpSplit(s, i, b, c, e, f)
  {
    if RegisterDumpAt(s, i) {
      GreedyIsSplit(s, i);
    }
    if exists b: nat, c: nat, e: nat, f: nat :: RegisterDumpSplit(s, i, b, c, e, f) {
      var b: nat, c: nat, e: nat, f: nat :| RegisterDumpSplit(s, i, b, c, e, f);
      SplitIsGreedy(s, i, b, c, e, f);
    }
  }

  // ---------------------------------------------------------------------------
  // parser

  /** `parserOutput`: a message in yellow, prefixed with `-- `. */
  function Annotation(message: string): string {
    "\U{001B}[33m-- " + message + "\U{001B}[0m"
  }

  predicate IsAnnotation(s: string) {
    StartsWith(s, "\U{001B}[33m-- ") && EndsWith(s, "\U{001B}[0m")
  }

  const ChecksumWarning: string :=
    "Warning: Checksum mismatch between flashed and built applications. Checksum of built application is "

  /** The outputs of the decode loop so far, whether a decode threw (which ends
      the loop and the parser), and whether some address was decoded. */
  datatype Annotated = Annotated(out: seq<string>, threw: bool, decoded: bool)

  function AnnotateAll(st: DecoderState, addrs: seq<nat>): (r: Annotated)
    requires Consistent(st)
    ensures forall k :: 0 <= k < |r.out| ==> IsAnnotation(r.out[k])
    ensures r.decoded <==> |r.out| > 0
  {
    if addrs == [] then Annotated([], false, false)
    else
      var prev := AnnotateAll(st, addrs[..|addrs| - 1]);
      if prev.threw then prev
      else match Decode(st, addrs[|addrs| - 1])
        case Thrown => Annotated(prev.out, true, prev.decoded)
        case Normal(None) => prev
        case Normal(Some(m)) => Annotated(prev.out + [Annotation(m)], false, true)
  }

  /** Once a decode has thrown, the later addresses are not decoded. */
  lemma {:induction false} AnnotateAfterThrow(st: DecoderState, addrs: seq<nat>, n: nat)
    requires Consistent(st) && n <= |addrs| && AnnotateAll(st, addrs[..n]).threw
    ensures AnnotateAll(st, addrs) == AnnotateAll(st, addrs[..n])
    decreases |addrs|
  {
    if n < |addrs| {
      var init := addrs[..|addrs| - 1];
      assert init[..n] == addrs[..n];
      AnnotateAfterThrow(st, init, n);
    } else {
      assert addrs[..n] == addrs;
    }
  }

  /** What one call of `parser` outputs, whether it threw, and the new
      `panicking` flag. */
  datatype Parsed = Parsed(out: seq<string>, threw: bool, panicking: bool)

  function Parse(st: DecoderState, line: string): Parsed
    requires Consistent(st)
  {
    var addrs := Addresses(line);
    if addrs != [] then
      var r := AnnotateAll(st, addrs);
      Parsed([line] + r.out + (if r.decoded && !r.threw then [""] else []), r.threw, st.panicking)
    else if IsRegisterDump(line) then Parsed([line], false, true)
    else if Contains(line, HashMarker) && ExtractHash(line) != "" then
      match st.sha
      case None => Parsed([line], true, false)
      case Some(sha) =>
        Parsed([line] + (if StartsWith(sha, ExtractHash(line)) then [] else [Annotation(ChecksumWarning + sha)]),
               false, false)
    else Parsed([line], false, st.panicking)
  }

  /** The line itself is always output first, and everything after it is an
      annotation or the empty separator line. */
  lemma ParseEchoesLine(st: DecoderState, line: string)
    requires Consistent(st)
    ensures |Parse(st, line).out| >= 1 && Parse(st, line).out[0] == line
    ensures forall k :: 1 <= k < |Parse(st, line).out| ==>
      IsAnnotation(Parse(st, line).out[k]) || Parse(st, line).out[k] == ""
  {
    var p := Parse(st, line);
    assert Annotation(ChecksumWarning) == "\U{001B}[33m-- " + (ChecksumWarning + "\U{001B}[0m");
    if Addresses(line) == [] {
      forall sha: string ensures IsAnnotation(Annotation(ChecksumWarning + sha)) {
        var a := Annotation(ChecksumWarning + sha);
        assert a == "\U{001B}[33m-- " + (ChecksumWarning + sha) + "\U{001B}[0m";
      }
    }
  }

  /** A line with addresses leaves `panicking` alone, and ends with the empty
      separator line exactly when some address decoded and no decode threw. */
  lemma ParseAddresses(st: DecoderState, line: string)
    requires Consistent(st) && Addresses(line) != []
    ensures Parse(st, line).panicking == st.panicking
    ensures var p := Parse(st, line);
      (|p.out| >= 2 && p.out[|p.out| - 1] == "") <==> AnnotateAll(st, Addresses(line)).decoded && !p.threw
  {
    var r := AnnotateAll(st, Addresses(line));
    if r.decoded && r.threw {
      assert IsAnnotation(r.out[|r.out| - 1]);
    }
  }

  /** A line holding the checksum of the flashed image (and no address or
      register dump) clears `panicking`, and is followed by a warning naming
      the built image's checksum exactly when that checksum does not start with
      the flashed one. Before any image was loaded the comparison throws. */
  lemma ParseChecksum(st: DecoderState, line: string)
    requires Consistent(st) && Addresses(line) == [] && !IsRegisterDump(line)
    requires ExtractHash(line) != ""
    ensures !Parse(st, line).panicking
    ensures st.sha.None? ==> Parse(st, line) == Parsed([line], true, false)
    ensures st.sha.Some? ==>
      Parse(st, line).out ==
        [line] + (if StartsWith(st.sha.value, ExtractHash(line)) then [] else [Annotation(ChecksumWarning + st.sha.value)])
  {
    ExtractHashFirst(line);
    var i := FirstHashAt(line, 0).value;
    assert Contains(line, HashMarker) by { assert i <= |line| && OccursAt(line, HashMarker, i); }
  }

  /** A register dump header sets `panicking`, and any other line without an
      address or a usable checksum leaves it alone; both are only echoed. */
  lemma ParsePlainLine(st: DecoderState, line: string)
    requires Consistent(st) && Addresses(line) == []
    ensures IsRegisterDump(line) ==> Parse(st, line) == Parsed([line], false, true)
    ensures !IsRegisterDump(line) && ExtractHash(line) == "" ==> Parse(st, line) == Parsed([line], false, st.panicking)
  {
  }
}
