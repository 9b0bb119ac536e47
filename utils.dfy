/** String helpers of the web extension: turning a byte buffer into a string,
    expanding `${...}` variables in a configured path, and choosing the file
    path of a build artifact. */
module Utils {
  import opened JsBase

  // ---------------------------------------------------------------------------
  // uInt8ArrayToString

  /** The string whose character i has code `bytes[i]` (`String.fromCharCode`). */
  function BytesToString(bytes: seq<byte>): (s: string)
    ensures |s| == |bytes|
    ensures forall i :: 0 <= i < |s| ==> s[i] as int == bytes[i]
  {
    seq(|bytes|, i requires 0 <= i < |bytes| => bytes[i] as char)
  }

  /** Appends one character per byte, in order. */
  method Uint8ArrayToString(buffer: seq<byte>) returns (s: string)
    ensures |s| == |buffer|
    ensures forall i :: 0 <= i < |s| ==> s[i] as int == buffer[i]
  {
    s := "";
    for i := 0 to |buffer|
      invariant |s| == i
      invariant forall k :: 0 <= k < i ==> s[k] as int == buffer[k]
    {
      s := s + [buffer[i] as char];
    }
  }

  /** A string is determined by the character codes the byte conversion promises. */
  lemma BytesToStringUnique(bytes: seq<byte>, s: string)
    requires |s| == |bytes|
    requires forall i :: 0 <= i < |s| ==> s[i] as int == bytes[i]
    ensures s == BytesToString(bytes)
  {
    var t := BytesToString(bytes);
    forall i | 0 <= i < |s| ensures s[i] == t[i] {
      assert s[i] as int == t[i] as int;
    }
  }

  // ---------------------------------------------------------------------------
  // resolveVariables: `configPath.replace(/\$\{(.*?)\}/g, callback)`

  /** The configuration scope handed to `resolveVariables`: a `Uri` (its `fsPath`),
      or another scope that may carry a `uri` (whose `fsPath` is used). */
  datatype Scope = UriScope(fsPath: string) | OtherScope(uri: Option<string>)

  /** The string is split into the regex's matches and the characters between them. */
  datatype Piece = Text(c: char) | Variable(text: string)

  /** The first `}` at or after `k`, provided no line terminator comes before it
      (the lazy `.*?` cannot cross a line terminator); none when every `}` from
      `k` on has a line terminator before it. */
  function CloseBrace(s: string, k: nat): (r: Option<nat>)
    requires k <= |s|
    ensures r.Some? ==> k <= r.value < |s| && s[r.value] == '}'
    ensures r.Some? ==> forall j :: k <= j < r.value ==> s[j] != '}' && !IsLineTerminator(s[j])
    ensures r.None? ==>
      forall j :: k <= j < |s| && s[j] == '}' ==> exists m :: k <= m < j && IsLineTerminator(s[m])
    decreases |s| - k
  {
    if k == |s| then None
    else if s[k] == '}' then Some(k)
    else if IsLineTerminator(s[k]) then None
    else CloseBrace(s, k + 1)
  }

  /** Where a match of `\$\{(.*?)\}` that starts at `i` ends (exclusive): the
      text from `i` to there has the shape of a variable, and when no end is
      found no text starting at `i` has that shape. */
  function MatchEnd(s: string, i: nat): (r: Option<nat>)
    requires i <= |s|
    ensures r.Some? ==> i < r.value <= |s| && VariableShape(s[i..r.value])
    ensures r.None? ==> forall e :: i < e <= |s| ==> !VariableShape(s[i..e])
  {
    if i + 2 <= |s| && s[i] == '$' && s[i + 1] == '{' then
      match CloseBrace(s, i + 2)
      case Some(j) => CloseShape(s, i, j); Some(j + 1)
      case None => NoCloseNoShape(s, i); None
    else
      assert forall e :: i < e <= |s| && |s[i..e]| >= 2 ==> s[i..e][0] == s[i] && s[i..e][1] == s[i + 1];
      None
  }

  /** The text from `${` to the `}` that closes it has the shape of a variable. */
  lemma CloseShape(s: string, i: nat, j: nat)
    requires i + 2 <= |s| && s[i] == '$' && s[i + 1] == '{' && CloseBrace(s, i + 2) == Some(j)
    ensures j + 1 <= |s| && VariableShape(s[i..j + 1])
  {
    var t := s[i..j + 1];
    forall m | 2 <= m < |t| - 1
      ensures t[m] != '}' && !IsLineTerminator(t[m])
    {
      assert t[m] == s[i + m];
    }
  }

  /** Without a closing `}` no text from `${` on has the shape of a variable. */
  lemma NoCloseNoShape(s: string, i: nat)
    requires i + 2 <= |s| && CloseBrace(s, i + 2).None?
    ensures forall e :: i < e <= |s| ==> !VariableShape(s[i..e])
  {
    forall e | i < e <= |s| && VariableShape(s[i..e])
      ensures false
    {
      var t := s[i..e];
      assert s[e - 1] == t[|t| - 1] == '}';
      var m :| i + 2 <= m < e - 1 && IsLineTerminator(s[m]);
    }
  }

  /** The matches of the global regex from `i` on, left to right and without overlap,
      and the characters between them. */
  function Pieces(s: string, i: nat): seq<Piece>
    requires i <= |s|
    decreases |s| - i
  {
    if i == |s| then []
    else match MatchEnd(s, i)
      case Some(e) => [Variable(s[i..e])] + Pieces(s, e)
      case None => [Text(s[i])] + Pieces(s, i + 1)
  }

  /** What the replacement callback returns for one piece. */
  function Render(p: Piece, scope: Option<Scope>): string {
    match p
    case Text(c) => [c]
    case Variable(t) =>
      if scope.Some? && IndexOf(t, "workspaceFolder", 0) > 0 then
        match scope.value
        case UriScope(path) => path
        case OtherScope(Some(path)) => path
        case OtherScope(None) => t
      else t
  }

  function RenderAll(ps: seq<Piece>, scope: Option<Scope>): string {
    if ps == [] then "" else Render(ps[0], scope) + RenderAll(ps[1..], scope)
  }

  function ResolveVariables(configPath: string, scope: Option<Scope>): string {
    RenderAll(Pieces(configPath, 0), scope)
  }

  lemma SliceSplit(s: string, i: nat, e: nat)
    requires i <= e <= |s|
    ensures s[i..] == s[i..e] + s[e..]
  {
  }

  /** The pieces put back together give the text they were cut from. */
  lemma {:induction false} PiecesCover(s: string, i: nat)
    requires i <= |s|
    ensures RenderAll(Pieces(s, i), None) == s[i..]
    decreases |s| - i
  {
    if i < |s| {
      match MatchEnd(s, i)
      case Some(e) =>
        PiecesCover(s, e);
        SliceSplit(s, i, e);
      case None =>
        PiecesCover(s, i + 1);
        SliceSplit(s, i, i + 1);
    }
  }

  /** Without a scope (as `getBuildDirectoryFileContent` calls it) nothing is replaced. */
  lemma ResolveWithoutScope(p: string)
    ensures ResolveVariables(p, None) == p
  {
    PiecesCover(p, 0);
  }

  /** `${`, then characters that are neither `}` nor line terminators, then `}`. */
  predicate VariableShape(t: string) {
    |t| >= 3 && t[0] == '$' && t[1] == '{' && t[|t| - 1] == '}'
    && forall j :: 2 <= j < |t| - 1 ==> t[j] != '}' && !IsLineTerminator(t[j])
  }

  /** Every variable piece runs from `${` to the first following `}`, with no
      line terminator in between. */
  lemma {:induction false} VariablesAreMatches(s: string, i: nat, k: nat)
    requires i <= |s| && k < |Pieces(s, i)| && Pieces(s, i)[k].Variable?
    ensures VariableShape(Pieces(s, i)[k].text)
    decreases |s| - i
  {
    match MatchEnd(s, i)
    case Some(e) =>
      if k > 0 {
        assert Pieces(s, i)[k] == Pieces(s, e)[k - 1];
        VariablesAreMatches(s, e, k - 1);
      }
    case None =>
      assert Pieces(s, i)[k] == Pieces(s, i + 1)[k - 1];
      VariablesAreMatches(s, i + 1, k - 1);
  }

  /** A variable is replaced by the scope's path exactly when its text contains
      `workspaceFolder` and the scope has a path; otherwise it is kept. */
  lemma RenderVariable(t: string, scope: Scope)
    requires |t| >= 2 && t[0] == '$' && t[1] == '{'
    ensures Contains(t, "workspaceFolder") && scope.UriScope? ==> Render(Variable(t), Some(scope)) == scope.fsPath
    ensures Contains(t, "workspaceFolder") && scope.OtherScope? && scope.uri.Some? ==>
      Render(Variable(t), Some(scope)) == scope.uri.value
    ensures !Contains(t, "workspaceFolder") || (scope.OtherScope? && scope.uri.None?) ==>
      Render(Variable(t), Some(scope)) == t
  {
    var w := "workspaceFolder";
    var r := IndexOf(t, w, 0);
    if Contains(t, w) {
      var i: nat :| i <= |t| && OccursAt(t, w, i);
      assert r != -1;
      assert t[r] == w[0];
    }
  }

  /** A string with no `${...}` in it is returned unchanged, whatever the scope. */
  lemma {:induction false} NoMatchUnchanged(s: string, i: nat, scope: Option<Scope>)
    requires i <= |s|
    requires forall j, e :: i <= j < e <= |s| ==> !VariableShape(s[j..e])
    ensures RenderAll(Pieces(s, i), scope) == s[i..]
    decreases |s| - i
  {
    if i < |s| {
      assert MatchEnd(s, i).None?;
      NoMatchUnchanged(s, i + 1, scope);
      assert s[i..] == [s[i]] + s[i + 1..];
    }
  }

  // ---------------------------------------------------------------------------
  // The path choice of getBuildDirectoryFileContent.

  /** `Uri.joinPath(base, ...segments)`, without normalisation: the base, then
      each segment after a `/`. */
  function JoinPath(base: string, segments: seq<string>): (r: string)
    ensures StartsWith(r, base)
    ensures segments != [] ==>
      r == JoinPath(base, segments[..|segments| - 1]) + "/" + segments[|segments| - 1]
    decreases |segments|
  {
    if segments == [] then base
    else
      var next := base + "/" + segments[0];
      var r := JoinPath(next, segments[1..]);
      assert r[..|base|] == next[..|base|];
      assert |segments| > 1 ==> segments[1..][..|segments| - 2] == segments[..|segments| - 1][1..];
      r
  }

  /** The configured build path (after variable resolution) if it is non-empty,
      otherwise `<workspace folder>/build`, followed by the relative segments. */
  method BuildDirectoryFilePath(workspaceFolder: string, configuredBuildPath: string, relative: seq<string>)
    returns (resultFilePath: string)
    ensures configuredBuildPath != "" ==> resultFilePath == JoinPath(configuredBuildPath, relative)
    ensures configuredBuildPath == "" ==> resultFilePath == JoinPath(workspaceFolder, ["build"] + relative)
  {
    var buildPath := ResolveVariables(configuredBuildPath, None);
    ResolveWithoutScope(configuredBuildPath);
    if buildPath != "" {
      resultFilePath := JoinPath(buildPath, relative);
    } else {
      resultFilePath := JoinPath(workspaceFolder, ["build"] + relative);
    }
  }
}
