# AddRequiredModifierToCSharpAutoProperties, modelled in Dafny

The tool walks a directory of C# sources. In each file it adds the `required`
modifier to every one-line auto-property that has a `set;` or `init;` accessor
and `public` or `internal` visibility, such as `public int Foo { get; set; }`.
The insertion goes straight after the visibility keyword and its trailing
space. The file is written back only when some line changed.

This project models the per-file core of `Program.cs`:

- `Program.TokenizeLine`: splits a line on the space character, trims every
  piece and keeps empty pieces.
- `Program.IsViableProperty`: the token-pattern test.
- `Program.LineContainsPropSetOrInit`: the whole-file pre-filter.
- `Program.ProcessCsharpFile`: the rewrite loop, as a method over an `array`
  of lines that changes the lines in place and returns whether the file would
  be written back.

The loop is proved against two functions:

- `Program.RewriteLine` gives what one iteration leaves in place of a line.
- `Program.ProcessFile` gives what the whole file becomes.

The properties are proved about these functions in `Properties.dfy`. The .NET
string operations the code calls are written out in `Text.dfy`: ordinal
`IndexOf` and `Contains`, `Insert`, `Trim`, and `Split` on one character with
empty entries kept. Each is proved against a declarative description. `Seqs.dfy`
holds the generic "map every element" facts the loop invariant is built on.

Two behaviours of the code are kept on purpose:

- **The splice position comes from a raw character search.** The code looks
  for the text `"public "`, or else `"internal "`, with no regard for token
  boundaries. On `internal int Mypublic { get; set; }` it therefore finds
  `public ` inside `Mypublic ` and splices `required ` after it.
  `Properties.SpliceOffsetSpec` states the search at the character level.
- **The `continue` at Program.cs:99-100 can be reached.** The code skips a
  viable line when neither search finds anything. The token test only needs a
  token equal to `public` or `internal`, and such a token need not be followed
  by a space. An example is `int X { get; set; } public`, whose last token is
  `public`. `Properties.TrailingKeywordTokens` and
  `Properties.TrailingKeywordViable` show that this line's tokens are viable.
  `Program.cs` keeps the branch although the token test seems to rule it out,
  and so does the model: `Program.RewriteLineUnchanged` and
  `Properties.RewriteLineSpec` leave such a line unchanged.

## Model

| member | source | states |
|---|---|---|
| Program.TokenizeLine | AddRequiredModifierToCSharpAutoProperties/Program.cs:120-123 | a line always gives at least one token; `TokenCount`, `TokenShape`, `EmptyTokenKept` and `TokenizeJoin` state the rest |
| Text.Split | AddRequiredModifierToCSharpAutoProperties/Program.cs:122 | `Split` always gives at least one piece; `SplitCount`, `SplitPiecesNoSep`, `JoinSplit` and `SplitJoin` state the rest |
| Text.Trim | AddRequiredModifierToCSharpAutoProperties/Program.cs:122 | `Trim` never lengthens a string; `TrimIsInfix` and `TrimOfTrimmed` state the rest |
| Text.TrimEach | AddRequiredModifierToCSharpAutoProperties/Program.cs:122 | trimming the entries keeps every entry, empty ones included; `TrimEachAt` gives each entry |
| Properties.TokenCount | AddRequiredModifierToCSharpAutoProperties/Program.cs:120-123 | a line with k spaces gives k + 1 tokens, so empty tokens are kept |
| Properties.TokenShape | AddRequiredModifierToCSharpAutoProperties/Program.cs:120-123 | no token holds a space, and no token starts or ends with whitespace |
| Properties.EmptyTokenKept | AddRequiredModifierToCSharpAutoProperties/Program.cs:120-123 | two spaces in a row put an empty token between the tokens on either side |
| Properties.TokenizeJoin | AddRequiredModifierToCSharpAutoProperties/Program.cs:120-123 | tokens with no space and no outer whitespace, joined by single spaces, tokenize back to themselves |
| Text.SplitCount | AddRequiredModifierToCSharpAutoProperties/Program.cs:122 | `Split` on a character gives one more piece than there are separators |
| Text.SplitPiecesNoSep | AddRequiredModifierToCSharpAutoProperties/Program.cs:122 | no piece of `Split` holds the separator |
| Text.JoinSplit | AddRequiredModifierToCSharpAutoProperties/Program.cs:122 | joining the pieces with the separator gives the string back |
| Text.SplitJoin | AddRequiredModifierToCSharpAutoProperties/Program.cs:122 | splitting joined separator-free pieces gives the pieces back |
| Text.SplitAround | AddRequiredModifierToCSharpAutoProperties/Program.cs:122 | splitting at one separator splits the two sides independently |
| Text.SplitOfPiece | AddRequiredModifierToCSharpAutoProperties/Program.cs:122 | a string without the separator is a single piece |
| Text.TrimIsInfix | AddRequiredModifierToCSharpAutoProperties/Program.cs:122 | `Trim` returns a run of the string with only whitespace around it, and the run neither starts nor ends with whitespace |
| Text.TrimStartIsSuffix | AddRequiredModifierToCSharpAutoProperties/Program.cs:122 | trimming the front drops only leading whitespace and leaves a string that does not start with whitespace |
| Text.TrimEndIsPrefix | AddRequiredModifierToCSharpAutoProperties/Program.cs:122 | trimming the back drops only trailing whitespace and leaves a string that does not end with whitespace |
| Text.TrimBothSides | AddRequiredModifierToCSharpAutoProperties/Program.cs:122 | trimming both sides equals trimming the front and then the back |
| Text.TrimOfTrimmed | AddRequiredModifierToCSharpAutoProperties/Program.cs:122 | a string with no whitespace at either end is unchanged by `Trim` |
| Text.TrimEachAt | AddRequiredModifierToCSharpAutoProperties/Program.cs:122 | token k is the trim of piece k; no piece is dropped |
| Text.TrimEachAppend | AddRequiredModifierToCSharpAutoProperties/Program.cs:122 | trimming the entries works piece by piece, so it distributes over concatenation |
| Program.IsViableProperty | AddRequiredModifierToCSharpAutoProperties/Program.cs:135-137 | fewer than five tokens are never viable |
| Program.IsDisallowed | AddRequiredModifierToCSharpAutoProperties/Program.cs:127-140 | the four keywords, matched against a whole token exactly, so `protected;` is not one; specified through `ViableIff` |
| Program.FirstIndex | AddRequiredModifierToCSharpAutoProperties/Program.cs:144-165 | `Array.IndexOf` gives -1 or a position among the tokens; `FirstIndexIsFirst` says which position |
| Properties.FirstIndexIsFirst | AddRequiredModifierToCSharpAutoProperties/Program.cs:144-165 | `Array.IndexOf` on tokens is -1 exactly when no token is equal, and otherwise it is the first equal position |
| Properties.ViableIff | AddRequiredModifierToCSharpAutoProperties/Program.cs:125-175 | in both directions, a token sequence is viable exactly when all of these hold: it has at least five tokens; no token equals a disallowed keyword exactly; some token is `public` or `internal`; and first `{` < S < first `}`, where S is the first `set;`, or the first `init;` when there is no `set;` |
| Program.LineContainsPropSetOrInit | AddRequiredModifierToCSharpAutoProperties/Program.cs:114-118 | a line that passes the pre-filter is at least as long as `" set; "`; `LineContainsPropSetOrInitSpec` gives both directions |
| Properties.LineContainsPropSetOrInitSpec | AddRequiredModifierToCSharpAutoProperties/Program.cs:114-118 | the pre-filter holds exactly when `" set; "` or `" init; "` occurs verbatim in the line |
| Text.IndexOfFromIsFirst | AddRequiredModifierToCSharpAutoProperties/Program.cs:94 | an ordinal search from an offset finds the first occurrence at or after it, and gives -1 exactly when there is none |
| Text.IndexOfIsFirst | AddRequiredModifierToCSharpAutoProperties/Program.cs:94-98 | ordinal `IndexOf` gives -1 exactly when the text does not occur, and otherwise the first occurrence |
| Text.IndexOf | AddRequiredModifierToCSharpAutoProperties/Program.cs:94-98 | the result is -1 or an offset at which the text fits in the string; `IndexOfIsFirst` says which offset |
| Text.Contains | AddRequiredModifierToCSharpAutoProperties/Program.cs:117 | ordinal `Contains`; specified by `ContainsOccurs` |
| Text.ContainsOccurs | AddRequiredModifierToCSharpAutoProperties/Program.cs:117 | ordinal `Contains` holds exactly when the text occurs somewhere |
| Text.Insert | AddRequiredModifierToCSharpAutoProperties/Program.cs:104 | `String.Insert` lengthens the string by the inserted text; `InsertShape` says where the text goes |
| Text.InsertShape | AddRequiredModifierToCSharpAutoProperties/Program.cs:104 | the inserted text sits at the offset, with the string unchanged on both sides, so deleting it gives the string back |
| Program.SpliceOffset | AddRequiredModifierToCSharpAutoProperties/Program.cs:94-101 | a splice offset lies within the line and past the length of `"public "` |
| Properties.SpliceOffsetSpec | AddRequiredModifierToCSharpAutoProperties/Program.cs:94-101 | the offset is -1 exactly when neither `"public "` nor `"internal "` occurs. Otherwise it is just past the first `"public "`, or just past the first `"internal "` when there is no `"public "`. The character before it is a space |
| Program.RewriteLine | AddRequiredModifierToCSharpAutoProperties/Program.cs:87-104 | one iteration leaves the line as it is or lengthens it by the nine characters of `"required "`; `RewriteLineSpec` says when and where |
| Properties.TrailingKeywordTokens | AddRequiredModifierToCSharpAutoProperties/Program.cs:87 | the line `int X { get; set; } public` tokenizes to seven tokens, the last of them `public` |
| Properties.TrailingKeywordViable | AddRequiredModifierToCSharpAutoProperties/Program.cs:89-100 | those tokens are viable, so the token test alone does not exclude the fallback at lines 99-100 |
| Program.RewriteLineUnchanged | AddRequiredModifierToCSharpAutoProperties/Program.cs:87-100 | a non-viable line, or a viable line with neither `"public "` nor `"internal "`, is left as it is |
| Program.RewriteLineSplice | AddRequiredModifierToCSharpAutoProperties/Program.cs:92-104 | for a viable line, the offset the loop computes lies within the line, and inserting `"required "` there is the rewrite |
| Properties.RewriteLineSpec | AddRequiredModifierToCSharpAutoProperties/Program.cs:87-104 | a line changes exactly when its tokens have the viable pattern and it has a splice offset. The change inserts `"required "` at the offset and nothing else, and removing those nine characters gives the line back |
| Properties.RequiredIsOneToken | AddRequiredModifierToCSharpAutoProperties/Program.cs:104 | `required` splits and trims to itself |
| Properties.RequiredBecomesToken | AddRequiredModifierToCSharpAutoProperties/Program.cs:104 | inserting `"required "` after a space makes `required` a token of the line |
| Properties.RewriteLineIdempotent | AddRequiredModifierToCSharpAutoProperties/Program.cs:131 | rewriting a rewritten line changes nothing, because its `required` token is disallowed |
| Program.LinesWithSetOrInit | AddRequiredModifierToCSharpAutoProperties/Program.cs:74 | `Where` keeps only lines that pass the pre-filter and never adds lines |
| Properties.LinesWithSetOrInitEmpty | AddRequiredModifierToCSharpAutoProperties/Program.cs:74-77 | the filtered lines are empty exactly when no line passes the pre-filter |
| Program.RewriteLines | AddRequiredModifierToCSharpAutoProperties/Program.cs:85-106 | every line has an image, so the number of lines is kept |
| Seqs.MapStep | AddRequiredModifierToCSharpAutoProperties/Program.cs:85-106 | one more iteration replaces line i by its image and nothing else; the flag records a change exactly when some line so far changed |
| Seqs.MapEachAt | AddRequiredModifierToCSharpAutoProperties/Program.cs:85-106 | line k of the result is the image of line k |
| Seqs.SomeChangedIff | AddRequiredModifierToCSharpAutoProperties/Program.cs:105-108 | the flag is raised exactly when the mapped lines differ from the lines |
| Seqs.MapEachIdempotent | AddRequiredModifierToCSharpAutoProperties/Program.cs:85-106 | mapping twice is mapping once when the map is idempotent on every image |
| Program.ProcessFile | AddRequiredModifierToCSharpAutoProperties/Program.cs:70-112 | processing keeps the number of lines; `ProcessFileLine`, `ProcessFileWritten` and `ProcessFileIdempotent` state the rest |
| Program.ProcessCsharpFile | AddRequiredModifierToCSharpAutoProperties/Program.cs:70-112 | the lines after the loop are the `ProcessFile` lines of the lines before it, and the result says whether the file is written back |
| Properties.ProcessFileLine | AddRequiredModifierToCSharpAutoProperties/Program.cs:74-106 | the number of lines is kept. When no line passes the pre-filter every line stays the same; otherwise each line becomes its rewrite. A line with non-viable tokens never changes |
| Properties.ProcessFileWritten | AddRequiredModifierToCSharpAutoProperties/Program.cs:76-111 | the file is written exactly when its lines changed, and a file that fails the pre-filter is left alone and not written |
| Properties.ProcessFileIdempotent | AddRequiredModifierToCSharpAutoProperties/Program.cs:70-112 | processing a processed file changes no line and writes nothing |

## Left out

- `Main` (Program.cs:11-65) is not modelled. It checks the argument, enumerates `*.cs` files under a directory and prints messages, all of which are operating-system and console I/O.
- `File.ReadAllLines` is not modelled: the lines arrive as an array. The way it breaks text into lines is left out with it.
- `File.WriteAllLines` with UTF-8 is not modelled: the method returns whether the file would be written, and the array holds the lines that would be written.
- Exceptions from reading or writing a file are not modelled.
- The `tokens == null` test at Program.cs:136 is not modelled, since `TokenizeLine` never yields null.
- Characters are Dafny `char`s, which are Unicode scalar values, not .NET UTF-16 code units. `IsWhite` lists the whitespace characters of `Char.IsWhiteSpace`, all in the Basic Multilingual Plane.
- The pre-filter's array of matching lines (Program.cs:74) is modelled as a sequence. The program uses only whether it is empty.
- The `Mypublic` example above is not stated as a lemma about a literal line; `Properties.SpliceOffsetSpec` covers it in general.
- The trailing-`public` example is covered by its tokens and their viability. The absence of `"public "` and `"internal "` from that literal line is not stated as a lemma.
