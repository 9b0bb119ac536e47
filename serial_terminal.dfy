/** The monitor's pseudo-terminal: line-ending normalisation of device
    output, the `closed` flag, keyboard input forwarded to the device, and the
    read loop that copies device chunks to the display. */
module SerialPseudoTerminal {
  import opened JsBase
  import opened SerialDevice
  import Utils

  const CR: char := '\r'
  const LF: char := '\n'
  /** Ctrl+], the keystroke that asks to close the monitor. */
  const CtrlRightBracket: char := '\U{001D}'

  // ---------------------------------------------------------------------------
  // writeOutput: `message.replace(/\r/g, "").replace(/\n/g, "\r\n")`

  function RemoveCR(s: string): string {
    if s == [] then [] else (if s[0] == CR then [] else [s[0]]) + RemoveCR(s[1..])
  }

  function LfToCrLf(s: string): string {
    if s == [] then [] else (if s[0] == LF then [CR, LF] else [s[0]]) + LfToCrLf(s[1..])
  }

  function Normalize(s: string): string {
    LfToCrLf(RemoveCR(s))
  }

  /** Every CR is immediately followed by LF and every LF immediately preceded
      by CR, read left to right. */
  predicate Paired(s: string) {
    if s == [] then true
    else if s[0] == CR then |s| >= 2 && s[1] == LF && Paired(s[2..])
    else s[0] != LF && Paired(s[1..])
  }

  lemma {:induction false} RemoveCRHasNoCR(s: string)
    ensures CR !in RemoveCR(s)
  {
    if s != [] { RemoveCRHasNoCR(s[1..]); }
  }

  lemma {:induction false} LfToCrLfPaired(t: string)
    requires CR !in t
    ensures Paired(LfToCrLf(t))
  {
    if t != [] {
      LfToCrLfPaired(t[1..]);
      var rest := LfToCrLf(t[1..]);
      if t[0] == LF {
        assert LfToCrLf(t) == [CR, LF] + rest;
        assert LfToCrLf(t)[2..] == rest;
      } else {
        assert LfToCrLf(t) == [t[0]] + rest;
        assert LfToCrLf(t)[1..] == rest;
      }
    }
  }

  /** The output of the normalisation is always paired. */
  lemma NormalizePaired(s: string)
    ensures Paired(Normalize(s))
  {
    RemoveCRHasNoCR(s);
    LfToCrLfPaired(RemoveCR(s));
  }

  /** A paired string, read index by index. */
  lemma {:induction false} PairedAt(s: string)
    requires Paired(s)
    ensures forall i :: 0 <= i < |s| && s[i] == CR ==> i + 1 < |s| && s[i + 1] == LF
    ensures forall i :: 0 <= i < |s| && s[i] == LF ==> i > 0 && s[i - 1] == CR
  {
    if s != [] {
      var k := if s[0] == CR then 2 else 1;
      PairedAt(s[k..]);
      forall i | k <= i < |s| ensures s[i] == s[k..][i - k] { }
    }
  }

  /** In what `writeOutput` emits, every CR is followed by LF and every LF is
      preceded by CR. */
  lemma NormalizeLineEnds(s: string)
    ensures var r := Normalize(s);
      (forall i :: 0 <= i < |r| && r[i] == CR ==> i + 1 < |r| && r[i + 1] == LF)
      && (forall i :: 0 <= i < |r| && r[i] == LF ==> i > 0 && r[i - 1] == CR)
  {
    NormalizePaired(s);
    PairedAt(Normalize(s));
  }

  lemma {:induction false} RemoveCRAppend(a: string, b: string)
    ensures RemoveCR(a + b) == RemoveCR(a) + RemoveCR(b)
  {
    if a != [] {
      assert (a + b)[1..] == a[1..] + b;
      RemoveCRAppend(a[1..], b);
    } else {
      assert a + b == b;
    }
  }

  lemma {:induction false} LfToCrLfAppend(a: string, b: string)
    ensures LfToCrLf(a + b) == LfToCrLf(a) + LfToCrLf(b)
  {
    if a != [] {
      assert (a + b)[1..] == a[1..] + b;
      LfToCrLfAppend(a[1..], b);
    } else {
      assert a + b == b;
    }
  }

  lemma {:induction false} RemoveCRStable(t: string)
    requires CR !in t
    ensures RemoveCR(t) == t
  {
    if t != [] { RemoveCRStable(t[1..]); }
  }

  lemma {:induction false} RemoveCRUndoesLfToCrLf(t: string)
    requires CR !in t
    ensures RemoveCR(LfToCrLf(t)) == t
  {
    if t != [] {
      var head: string := if t[0] == LF then [CR, LF] else [t[0]];
      RemoveCRAppend(head, LfToCrLf(t[1..]));
      RemoveCRUndoesLfToCrLf(t[1..]);
      assert RemoveCR(head) == [t[0]];
    }
  }

  /** Deleting every CR from the output gives the input with every CR deleted. */
  lemma NormalizeKeepsText(s: string)
    ensures RemoveCR(Normalize(s)) == RemoveCR(s)
  {
    RemoveCRHasNoCR(s);
    RemoveCRUndoesLfToCrLf(RemoveCR(s));
  }

  lemma {:induction false} RemoveCRKeepsLF(s: string)
    ensures multiset(RemoveCR(s))[LF] == multiset(s)[LF]
  {
    if s != [] {
      RemoveCRKeepsLF(s[1..]);
      assert s == [s[0]] + s[1..];
    }
  }

  lemma {:induction false} LfToCrLfKeepsLF(s: string)
    ensures multiset(LfToCrLf(s))[LF] == multiset(s)[LF]
  {
    if s != [] {
      LfToCrLfKeepsLF(s[1..]);
      assert s == [s[0]] + s[1..];
    }
  }

  /** The number of LF characters is unchanged. */
  lemma NormalizeKeepsLineCount(s: string)
    ensures multiset(Normalize(s))[LF] == multiset(s)[LF]
  {
    RemoveCRKeepsLF(s);
    LfToCrLfKeepsLF(RemoveCR(s));
  }

  lemma {:induction false} PairedIsFixed(s: string)
    requires Paired(s)
    ensures Normalize(s) == s
  {
    if s != [] {
      if s[0] == CR {
        PairedIsFixed(s[2..]);
        assert s == [CR, LF] + s[2..];
        RemoveCRAppend([CR, LF], s[2..]);
        LfToCrLfAppend([LF], RemoveCR(s[2..]));
      } else {
        PairedIsFixed(s[1..]);
        assert s == [s[0]] + s[1..];
        RemoveCRAppend([s[0]], s[1..]);
        LfToCrLfAppend([s[0]], RemoveCR(s[1..]));
      }
    }
  }

  /** The strings the normalisation leaves alone are exactly the paired ones. */
  lemma NormalizeFixedPoints(s: string)
    ensures Normalize(s) == s <==> Paired(s)
  {
    NormalizePaired(s);
    if Paired(s) { PairedIsFixed(s); }
  }

  /** Normalising twice is normalising once. */
  lemma NormalizeIdempotent(s: string)
    ensures Normalize(Normalize(s)) == Normalize(s)
  {
    NormalizePaired(s);
    PairedIsFixed(Normalize(s));
  }

  /** What `writeLine` emits ends in CR LF. */
  lemma WriteLineEndsInCrLf(message: string)
    ensures EndsWith(Normalize(message + [LF]), [CR, LF])
  {
    RemoveCRAppend(message, [LF]);
    assert RemoveCR([LF]) == [LF];
    LfToCrLfAppend(RemoveCR(message), [LF]);
    assert LfToCrLf([LF]) == [CR, LF];
  }

  // ---------------------------------------------------------------------------
  // The read loop of `open`.

  /** What `rawRead().next()` resolves to: `{ value, done }`. */
  datatype Chunk = Chunk(done: bool, value: Option<seq<byte>>)

  /** A chunk that ends the loop: `done || !value`. An empty `Uint8Array` is
      truthy, so an empty chunk does not end it. */
  predicate Stops(c: Chunk) {
    c.done || c.value.None?
  }

  /** The strings the read loop writes for a stream of chunks: the normalised
      text of every chunk before the first one that stops the loop. */
  function ReadLoopOutput(chunks: seq<Chunk>): seq<string> {
    if chunks == [] || Stops(chunks[0]) then []
    else [Normalize(Utils.BytesToString(chunks[0].value.value))] + ReadLoopOutput(chunks[1..])
  }

  /** The output is one normalised text per chunk, in order, up to the first
      chunk that stops the loop. */
  lemma {:induction false} ReadLoopOutputUpToStop(chunks: seq<Chunk>)
    ensures |ReadLoopOutput(chunks)| <= |chunks|
    ensures forall k :: 0 <= k < |ReadLoopOutput(chunks)| ==>
      !Stops(chunks[k]) && ReadLoopOutput(chunks)[k] == Normalize(Utils.BytesToString(chunks[k].value.value))
    ensures |ReadLoopOutput(chunks)| < |chunks| ==> Stops(chunks[|ReadLoopOutput(chunks)|])
  {
    if chunks != [] && !Stops(chunks[0]) {
      ReadLoopOutputUpToStop(chunks[1..]);
      var out := ReadLoopOutput(chunks);
      forall k | 1 <= k < |out|
        ensures !Stops(chunks[k]) && out[k] == Normalize(Utils.BytesToString(chunks[k].value.value))
      {
        assert out[k] == ReadLoopOutput(chunks[1..])[k - 1];
        assert chunks[1..][k - 1] == chunks[k];
      }
    }
  }

  /** One turn of the read loop: a stopping chunk ends the output, any other
      chunk contributes its normalised text. */
  lemma ReadLoopStep(chunks: seq<Chunk>, i: nat)
    requires i < |chunks|
    ensures Stops(chunks[i]) ==> ReadLoopOutput(chunks[i..]) == []
    ensures !Stops(chunks[i]) ==>
      ReadLoopOutput(chunks[i..]) == [Normalize(Utils.BytesToString(chunks[i].value.value))] + ReadLoopOutput(chunks[i + 1..])
  {
    assert chunks[i..][0] == chunks[i];
    assert chunks[i..][1..] == chunks[i + 1..];
  }

  // ---------------------------------------------------------------------------

  /** `SerialTerminal`, bound to the port of its transport. */
  class SerialTerminal {
    const device: SerialPort
    var closed: bool
    /** The strings fired on `onDidWrite`, in order. */
    var written: seq<string>
    /** How many times `onDidClose` fired. */
    var closeEvents: nat
    /** The input handed to the device's writer, in order. */
    var sentToDevice: seq<string>
    /** The error messages shown to the user. */
    var errorMessages: seq<string>

    constructor (port: SerialPort)
      ensures device == port && !closed
      ensures written == [] && closeEvents == 0 && sentToDevice == [] && errorMessages == []
    {
      device := port;
      closed := false;
      written, closeEvents, sentToDevice, errorMessages := [], 0, [], [];
    }

    method WriteOutput(message: string)
      modifies this`written
      ensures written == old(written) + [Normalize(message)]
    {
      var output := Normalize(message);
      written := written + [output];
    }

    method WriteLine(message: string)
      modifies this`written
      ensures written == old(written) + [Normalize(message + [LF])]
      ensures EndsWith(written[|written| - 1], [CR, LF])
    {
      WriteOutput(message + [LF]);
      WriteLineEndsInCrLf(message);
    }

    /** Sets `closed`, fires the close event only the first time, and disconnects
        the transport when the port is still readable. */
    method Close()
      modifies this`closed, this`closeEvents, device
      ensures closed
      ensures closeEvents == old(closeEvents) + (if old(closed) then 0 else 1)
      ensures old(device.readable).Present? ==>
        !device.IsOpen() && device.closeCalls == old(device.closeCalls) + 1
      ensures old(device.readable).Absent? ==>
        device.readable == old(device.readable) && device.writable == old(device.writable)
        && device.closeCalls == old(device.closeCalls)
      ensures device.disconnectListeners == old(device.disconnectListeners)
    {
      if !closed {
        closed := true;
        closeEvents := closeEvents + 1;
      }
      if device.readable.Present? {
        device.Close();
      }
    }

    /** Ctrl+] fires the close event (without setting `closed`); the input is
        written to the device whenever it has a writable side. `getWriter()`
        throws when that side is already locked. */
    method HandleInput(data: string) returns (threw: bool)
      modifies this`closeEvents, this`sentToDevice, this`errorMessages
      ensures closeEvents == old(closeEvents) + (if data == [CtrlRightBracket] then 1 else 0)
      ensures threw <==> device.writable == Present(true)
      ensures sentToDevice == old(sentToDevice) + (if device.writable == Present(false) then [data] else [])
      ensures errorMessages == old(errorMessages) + (if device.writable.Absent? then ["Unable to write to serial port"] else [])
    {
      threw := false;
      if data == [CtrlRightBracket] {
        closeEvents := closeEvents + 1;
      }
      match device.writable
      case Absent =>
        errorMessages := errorMessages + ["Unable to write to serial port"];
      case Present(locked) =>
        if locked {
          threw := true;
        } else {
          sentToDevice := sentToDevice + [data];
        }
    }

    /** The read loop of `open`: while not closed, reads a chunk, stops at the
        first chunk that is done or has no value, and otherwise writes its text.
        A stream that runs out of chunks counts as done. */
    method ReadLoop(chunks: seq<Chunk>)
      modifies this`written
      ensures written == old(written) + (if closed then [] else ReadLoopOutput(chunks))
    {
      if closed {
        return;
      }
      var i := 0;
      assert chunks[i..] == chunks;
      while !closed
        invariant 0 <= i <= |chunks|
        invariant old(written) + ReadLoopOutput(chunks) == written + ReadLoopOutput(chunks[i..])
        decreases |chunks| - i
      {
        if i == |chunks| {
          assert chunks[i..] == [];
          break;
        }
        var chunk := chunks[i];
        ReadLoopStep(chunks, i);
        i := i + 1;
        if Stops(chunk) {
          break;
        }
        var valStr := Utils.Uint8ArrayToString(chunk.value.value);
        Utils.BytesToStringUnique(chunk.value.value, valStr);
        Associative(written, [Normalize(valStr)], ReadLoopOutput(chunks[i..]));
        WriteOutput(valStr);
      }
    }
  }
}
