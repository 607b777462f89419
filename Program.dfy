/** The line rewriter of AddRequiredModifierToCSharpAutoProperties: it adds the
    C# `required` modifier to one-line auto-properties that have a `set;` or
    `init;` accessor and `public` or `internal` visibility.

    The per-line classifier (`TokenizeLine`, `IsViableProperty`) and the
    whole-file pre-filter (`LineContainsPropSetOrInit`) are functions; the
    rewrite loop of `ProcessCsharpFile` works in place on an array of lines and
    is specified by `RewriteLine` and `ProcessFile`. Reading and writing the
    file are left to the caller: the lines come in as an array and the method
    returns whether the file would be written back. */
module Program {
  import opened Text
  import opened Seqs

  /** `line.Split(' ', StringSplitOptions.TrimEntries)`: split on the space
      character, trim every piece, keep the empty ones. */
  function TokenizeLine(line: string): (tokens: seq<string>)
    ensures |tokens| >= 1
  {
    TrimEach(Split(line, ' '))
  }

  /** The tokens that disqualify a line, compared exactly; `required` marks a
      property already rewritten. */
  predicate IsDisallowed(token: string)
  {
    token == "protected" || token == "private" || token == "required" || token == "static"
  }

  /** `Array.IndexOf(tokens, t)`: the index of the first token equal to `t`, or -1. */
  function FirstIndex(tokens: seq<string>, t: string): (r: int)
    ensures -1 <= r < |tokens|
  {
    if |tokens| == 0 then -1
    else if tokens[0] == t then 0
    else
      var r := FirstIndex(tokens[1..], t);
      if r < 0 then -1 else r + 1
  }

  /** The token-pattern test a line must pass to be rewritten: at least five
      tokens, none of them disallowed, `public` or `internal` among them, and
      the first `{`, the first `set;` (or, failing that, the first `init;`) and
      the first `}` in that order. */
  function IsViableProperty(tokens: seq<string>): (viable: bool)
    ensures viable ==> |tokens| >= 5
  {
    if |tokens| < 5 then false
    else if exists k :: 0 <= k < |tokens| && IsDisallowed(tokens[k]) then false
    else if FirstIndex(tokens, "public") < 0 && FirstIndex(tokens, "internal") < 0 then false
    else
      var lbraceIdx := FirstIndex(tokens, "{");
      if lbraceIdx < 0 then false
      else
        var rbraceIdx := FirstIndex(tokens, "}");
        if rbraceIdx < 0 then false
        else if rbraceIdx <= lbraceIdx then false
        else
          var setIdx := FirstIndex(tokens, "set;");
          var setOrInitIdx := if setIdx < 0 then FirstIndex(tokens, "init;") else setIdx;
          if setOrInitIdx < 0 then false
          else lbraceIdx < setOrInitIdx && setOrInitIdx < rbraceIdx
  }

  /** The whole-file pre-filter: the line holds `" set; "` or `" init; "`
      verbatim, single spaces on both sides. */
  predicate LineContainsPropSetOrInit(line: string)
    ensures LineContainsPropSetOrInit(line) ==> |line| >= |" set; "|
  {
    Contains(line, " set; ") || Contains(line, " init; ")
  }

  /** Where the loop of `ProcessCsharpFile` splices: just past the first raw
      `"public "`, or just past the first raw `"internal "` when there is no
      `"public "`, or nowhere (-1). Either way the character before the
      offset is a space. */
  function SpliceOffset(line: string): (n: int)
    ensures n == -1 || |"public "| <= n <= |line|
  {
    var p := IndexOf(line, "public ");
    if p >= 0 then p + |"public "|
    else
      var q := IndexOf(line, "internal ");
      if q >= 0 then q + |"internal "| else -1
  }

  /** What one iteration of the loop in `ProcessCsharpFile` leaves in place of
      `line`: unchanged unless the line is viable and has a splice offset, and
      otherwise `"required "` inserted at the splice offset. */
  function RewriteLine(line: string): (r: string)
    ensures r == line || |r| == |line| + |"required "|
  {
    if !IsViableProperty(TokenizeLine(line)) then line
    else
      var n := SpliceOffset(line);
      if n < 0 then line else Insert(line, n, "required ")
  }

  /** `lines.Where(LineContainsPropSetOrInit)`: the lines that pass the
      pre-filter, in order. */
  function LinesWithSetOrInit(lines: seq<string>): (r: seq<string>)
    ensures |r| <= |lines|
    ensures forall k :: 0 <= k < |r| ==> LineContainsPropSetOrInit(r[k])
  {
    if |lines| == 0 then []
    else
      var rest := LinesWithSetOrInit(lines[..|lines| - 1]);
      if LineContainsPropSetOrInit(lines[|lines| - 1]) then rest + [lines[|lines| - 1]] else rest
  }

  /** `RewriteLine` applied to every line, in order. */
  function RewriteLines(lines: seq<string>): (r: seq<string>)
    ensures |r| == |lines|
  {
    MapEach(RewriteLine, lines)
  }

  /** Some line is changed by `RewriteLine`: the flag the loop of
      `ProcessCsharpFile` raises. */
  function SomeLineRewritten(lines: seq<string>): (r: bool)
  {
    SomeChanged(RewriteLine, lines)
  }

  /** `RewriteLine` case by case, the way the loop of `ProcessCsharpFile`
      computes it: a line that is not viable, or that has neither `"public "`
      nor `"internal "` in it, is left as it is. */
  lemma RewriteLineUnchanged(line: string)
    ensures !IsViableProperty(TokenizeLine(line)) ==> RewriteLine(line) == line
    ensures IndexOf(line, "public ") < 0 && IndexOf(line, "internal ") < 0 ==> RewriteLine(line) == line
  {
  }

  /** The splice the loop of `ProcessCsharpFile` performs on a viable line is
      the rewrite: just past the first `"public "`, or, when there is none,
      just past the first `"internal "`. */
  lemma RewriteLineSplice(line: string, idx: int, length: int)
    requires IsViableProperty(TokenizeLine(line))
    requires (idx == IndexOf(line, "public ") && idx >= 0 && length == |"public "|)
             || (IndexOf(line, "public ") < 0 && idx == IndexOf(line, "internal ") && idx >= 0 && length == |"internal "|)
    ensures 0 <= idx + length <= |line|
    ensures RewriteLine(line) == Insert(line, idx + length, "required ")
  {
  }

  /** The outcome of processing one file: its new lines and whether they are
      written back. */
  datatype FileResult = FileResult(lines: seq<string>, written: bool)

  /** What `ProcessCsharpFile` does to a file's lines: nothing when no line
      passes the pre-filter, otherwise every line rewritten by `RewriteLine`,
      with the file written back exactly when some line changed. */
  function ProcessFile(lines: seq<string>): (r: FileResult)
    ensures |r.lines| == |lines|
  {
    if |LinesWithSetOrInit(lines)| == 0 then FileResult(lines, false)
    else
      var rewritten := RewriteLines(lines);
      FileResult(rewritten, SomeLineRewritten(lines))
  }

  /** The loop of `ProcessCsharpFile`, over the lines read from the file;
      `written` tells whether the file is written back. */
  method ProcessCsharpFile(lines: array<string>) returns (written: bool)
    modifies lines
    ensures lines[..] == ProcessFile(old(lines[..])).lines
    ensures written == ProcessFile(old(lines[..])).written
  {
    var linesWithSetOrInit := LinesWithSetOrInit(lines[..]);
    if |linesWithSetOrInit| == 0 {
      return false;
    }

    ghost var was := lines[..];
    var modified := false;
    for i := 0 to lines.Length
      invariant lines[..] == MapPrefix(RewriteLine, was, i)
      invariant modified == SomeChanged(RewriteLine, was[..i])
    {
      MapStep(RewriteLine, was, i);
      assert lines[i] == was[i];
      RewriteLineUnchanged(was[i]);
      var tokens := TokenizeLine(lines[i]);
      if !IsViableProperty(tokens) {
        continue;
      }

      var line := lines[i];
      var publicOrInternalIdx := IndexOf(line, "public ");
      var length := |"public "|;
      if publicOrInternalIdx < 0 {
        publicOrInternalIdx := IndexOf(line, "internal ");
        if publicOrInternalIdx < 0 {
          continue;
        }
        length := |"internal "|;
      }

      RewriteLineSplice(line, publicOrInternalIdx, length);
      ghost var before := lines[..];
      lines[i] := Insert(line, publicOrInternalIdx + length, "required ");
      modified := true;
      assert lines[..] == before[i := RewriteLine(was[i])];
    }
    assert was[..lines.Length] == was;
    written := modified;
  }
}
