/** What the rewriter promises, stated against declarative descriptions of
    its parts: how lines are tokenized, which token sequences are viable,
    where `"required "` is spliced in, and what processing a whole file does
    to its lines and to the decision to write it back. */
module Properties {
  import opened Text
  import opened Seqs
  import opened Program

  // ---------------------------------------------------------------------
  // Tokens

  /** A line with `k` spaces has `k + 1` tokens, empty ones included. */
  lemma TokenCount(line: string)
    ensures |TokenizeLine(line)| == multiset(line)[' '] + 1
  {
    SplitCount(line, ' ');
  }

  /** Every token is a piece of the line between spaces with the whitespace
      trimmed off: it holds no space and neither starts nor ends with
      whitespace. */
  lemma TokenShape(line: string, k: nat)
    requires k < |TokenizeLine(line)|
    ensures forall j :: 0 <= j < |TokenizeLine(line)[k]| ==> TokenizeLine(line)[k][j] != ' '
    ensures TokenizeLine(line)[k] == []
            || (!IsWhite(TokenizeLine(line)[k][0])
                && !IsWhite(TokenizeLine(line)[k][|TokenizeLine(line)[k]| - 1]))
  {
    var piece := Split(line, ' ')[k];
    TrimEachAt(Split(line, ' '), k);
    SplitPiecesNoSep(line, ' ', k);
    TrimIsInfix(piece);
    var t := Trim(piece);
    forall j | 0 <= j < |t|
      ensures t[j] != ' '
    {
      assert t[j] == piece[TrimOffset(piece) + j];
    }
  }

  /** Two spaces in a row give an empty token between them: empty entries
      are kept. */
  lemma EmptyTokenKept(x: string, y: string)
    ensures TokenizeLine(x + "  " + y) == TokenizeLine(x) + [""] + TokenizeLine(y)
  {
    var line := x + "  " + y;
    assert line == x + [' '] + ([' '] + y);
    SplitAround(x, ' ', [' '] + y);
    assert [' '] + y == [] + [' '] + y;
    SplitAround([], ' ', y);
    assert Split([], ' ') == [""];
    var pieces := Split(x, ' ') + [""] + Split(y, ' ');
    assert Split(line, ' ') == pieces;
    TrimEachAppend(Split(x, ' ') + [""], Split(y, ' '));
    TrimEachAppend(Split(x, ' '), [""]);
    assert TrimEach([""]) == [Trim("")] == [""];
  }

  /** Tokens that hold no space and have no whitespace at either end, joined
      with single spaces, tokenize back to themselves. */
  lemma TokenizeJoin(tokens: seq<string>)
    requires |tokens| >= 1
    requires forall k :: 0 <= k < |tokens| ==> ' ' !in tokens[k]
    requires forall k :: 0 <= k < |tokens| ==>
               tokens[k] == [] || (!IsWhite(tokens[k][0]) && !IsWhite(tokens[k][|tokens[k]| - 1]))
    ensures TokenizeLine(Join(tokens, ' ')) == tokens
  {
    SplitJoin(tokens, ' ');
    forall k | 0 <= k < |tokens|
      ensures TrimEach(tokens)[k] == tokens[k]
    {
      TrimEachAt(tokens, k);
      TrimOfTrimmed(tokens[k]);
    }
  }

  // ---------------------------------------------------------------------
  // Viability

  /** `i` is the position of the first token equal to `t`. */
  predicate IsFirst(tokens: seq<string>, t: string, i: int)
  {
    0 <= i < |tokens| && tokens[i] == t && forall j :: 0 <= j < i ==> tokens[j] != t
  }

  /** No token equals `t`. */
  predicate NoToken(tokens: seq<string>, t: string)
  {
    forall k :: 0 <= k < |tokens| ==> tokens[k] != t
  }

  /** `FirstIndex` is -1 exactly when no token equals `t`, and otherwise the
      position of the first one that does. */
  lemma {:induction false} FirstIndexIsFirst(tokens: seq<string>, t: string)
    ensures FirstIndex(tokens, t) == -1 <==> NoToken(tokens, t)
    ensures FirstIndex(tokens, t) >= 0 ==> IsFirst(tokens, t, FirstIndex(tokens, t))
  {
    if |tokens| > 0 && tokens[0] != t {
      FirstIndexIsFirst(tokens[1..], t);
      var r := FirstIndex(tokens[1..], t);
      if r >= 0 {
        forall j | 0 <= j < r + 1
          ensures tokens[j] != t
        {
          if j > 0 {
            assert tokens[j] == tokens[1..][j - 1];
          }
        }
      } else {
        forall k | 0 <= k < |tokens|
          ensures tokens[k] != t
        {
          if k > 0 {
            assert tokens[k] == tokens[1..][k - 1];
          }
        }
      }
    }
  }

  /** `m` is the position of the first `set;`, or of the first `init;` when
      there is no `set;`. */
  predicate IsSetOrInit(tokens: seq<string>, m: int)
  {
    IsFirst(tokens, "set;", m) || (NoToken(tokens, "set;") && IsFirst(tokens, "init;", m))
  }

  /** The first `{`, then the first `set;` (or `init;`), then the first `}`. */
  predicate AccessorsInOrder(tokens: seq<string>)
  {
    exists l, m, r :: 0 <= l < m < r < |tokens|
      && IsFirst(tokens, "{", l) && IsSetOrInit(tokens, m) && IsFirst(tokens, "}", r)
  }

  /** The token pattern of an auto-property, said directly: at least five
      tokens, none of them a disallowed keyword, a `public` or `internal`
      token, and the first `{` before the first `set;` (or, when there is no
      `set;`, the first `init;`), which is before the first `}`. */
  predicate ViablePattern(tokens: seq<string>)
  {
    |tokens| >= 5
    && (forall k :: 0 <= k < |tokens| ==> !IsDisallowed(tokens[k]))
    && (!NoToken(tokens, "public") || !NoToken(tokens, "internal"))
    && AccessorsInOrder(tokens)
  }

  /** `IsViableProperty` accepts exactly the token sequences that have the
      auto-property pattern. */
  lemma ViableIff(tokens: seq<string>)
    ensures IsViableProperty(tokens) <==> ViablePattern(tokens)
  {
    FirstIndexIsFirst(tokens, "public");
    FirstIndexIsFirst(tokens, "internal");
    FirstIndexIsFirst(tokens, "{");
    FirstIndexIsFirst(tokens, "}");
    FirstIndexIsFirst(tokens, "set;");
    FirstIndexIsFirst(tokens, "init;");
    var l, r, s, n := FirstIndex(tokens, "{"), FirstIndex(tokens, "}"), FirstIndex(tokens, "set;"), FirstIndex(tokens, "init;");
    if AccessorsInOrder(tokens) {
      var l', m', r' :| 0 <= l' < m' < r' < |tokens|
        && IsFirst(tokens, "{", l') && IsSetOrInit(tokens, m') && IsFirst(tokens, "}", r');
      assert l == l' && r == r';
      if IsFirst(tokens, "set;", m') {
        assert s == m';
      } else {
        assert n == m';
      }
    }
    if IsViableProperty(tokens) {
      var m := if s < 0 then n else s;
      assert IsSetOrInit(tokens, m);
    }
  }

  // ---------------------------------------------------------------------
  // Splicing in `required`

  /** `i` is the first occurrence of `pat` in `s`. */
  predicate FirstOccurrence(s: string, pat: string, i: int)
  {
    OccursAt(s, pat, i) && forall j :: 0 <= j < i ==> !OccursAt(s, pat, j)
  }

  /** The splice offset is found by a raw character search, with no regard
      for token boundaries: just past the first `"public "`, or, when there is
      none, just past the first `"internal "`, or -1 when neither occurs.
      The character before a splice offset is always a space. */
  lemma SpliceOffsetSpec(line: string)
    ensures SpliceOffset(line) == -1 <==>
              (forall i :: !OccursAt(line, "public ", i)) && (forall i :: !OccursAt(line, "internal ", i))
    ensures (exists i :: OccursAt(line, "public ", i)) ==>
              FirstOccurrence(line, "public ", SpliceOffset(line) - |"public "|)
    ensures (forall i :: !OccursAt(line, "public ", i)) && (exists i :: OccursAt(line, "internal ", i)) ==>
              FirstOccurrence(line, "internal ", SpliceOffset(line) - |"internal "|)
    ensures SpliceOffset(line) >= 0 ==> 1 <= SpliceOffset(line) && line[SpliceOffset(line) - 1] == ' '
  {
    IndexOfIsFirst(line, "public ");
    IndexOfIsFirst(line, "internal ");
    var n := SpliceOffset(line);
    if IndexOf(line, "public ") >= 0 {
      var p := IndexOf(line, "public ");
      assert line[n - 1] == line[p..p + 7][6];
    } else if IndexOf(line, "internal ") >= 0 {
      var q := IndexOf(line, "internal ");
      assert line[n - 1] == line[q..q + 9][8];
    }
  }

  /** The tokens of `int X { get; set; } public`, the line whose last token,
      `public`, ends it. */
  lemma TrailingKeywordTokens()
    ensures TokenizeLine(Join(["int", "X", "{", "get;", "set;", "}", "public"], ' '))
            == ["int", "X", "{", "get;", "set;", "}", "public"]
  {
    TokenizeJoin(["int", "X", "{", "get;", "set;", "}", "public"]);
  }

  /** Those tokens are viable, so the token test does not rule out the
      fallback of the loop that leaves a viable line alone when neither
      `"public "` nor `"internal "` occurs in it. */
  lemma TrailingKeywordViable()
    ensures IsViableProperty(["int", "X", "{", "get;", "set;", "}", "public"])
  {
    var tokens := ["int", "X", "{", "get;", "set;", "}", "public"];
    assert forall k :: 0 <= k < |tokens| ==> !IsDisallowed(tokens[k]);
    assert FirstIndex(tokens, "public") == 6;
    assert FirstIndex(tokens, "{") == 2;
    assert FirstIndex(tokens, "}") == 5;
    assert FirstIndex(tokens, "set;") == 4;
  }

  /** A line is rewritten exactly when its tokens have the auto-property
      pattern and it has a splice offset; the rewrite inserts `"required "`
      there and changes nothing else, so removing those nine characters gives
      the line back. */
  lemma RewriteLineSpec(line: string)
    ensures RewriteLine(line) != line <==> ViablePattern(TokenizeLine(line)) && SpliceOffset(line) >= 0
    ensures RewriteLine(line) != line ==>
              RewriteLine(line) == Insert(line, SpliceOffset(line), "required ")
              && OccursAt(RewriteLine(line), "required ", SpliceOffset(line))
              && RewriteLine(line)[..SpliceOffset(line)] + RewriteLine(line)[SpliceOffset(line) + 9..] == line
  {
    ViableIff(TokenizeLine(line));
    var n := SpliceOffset(line);
    if IsViableProperty(TokenizeLine(line)) && n >= 0 {
      InsertShape(line, n, "required ");
      assert |RewriteLine(line)| == |line| + 9;
    }
  }

  /** `required` is a single token by itself. */
  lemma RequiredIsOneToken()
    ensures Split("required", ' ') == ["required"]
    ensures Trim("required") == "required"
  {
    SplitOfPiece("required", ' ');
    TrimOfTrimmed("required");
  }

  /** Inserting `"required "` just after a space makes `required` a token of
      the line, at the position given by the number of pieces before that
      space. */
  lemma RequiredBecomesToken(line: string, n: nat)
    requires 1 <= n <= |line| && line[n - 1] == ' '
    ensures |Split(line[..n - 1], ' ')| < |TokenizeLine(Insert(line, n, "required "))|
    ensures TokenizeLine(Insert(line, n, "required "))[|Split(line[..n - 1], ' ')|] == "required"
  {
    var x, y := line[..n - 1], line[n..];
    var r := Insert(line, n, "required ");
    assert line[..n] == x + [' '];
    assert r == x + [' '] + ("required" + [' '] + y);
    SplitAround(x, ' ', "required" + [' '] + y);
    SplitAround("required", ' ', y);
    RequiredIsOneToken();
    var pieces := Split(x, ' ') + ["required"] + Split(y, ' ');
    assert Split(r, ' ') == pieces;
    TrimEachAppend(Split(x, ' ') + ["required"], Split(y, ' '));
    TrimEachAppend(Split(x, ' '), ["required"]);
    assert TrimEach(["required"]) == ["required"];
    assert TokenizeLine(r) == TrimEach(Split(x, ' ')) + ["required"] + TrimEach(Split(y, ' '));
  }

  /** A rewritten line is left alone by a second rewrite: the `required`
      token it now carries is a disallowed keyword. */
  lemma RewriteLineIdempotent(line: string)
    ensures RewriteLine(RewriteLine(line)) == RewriteLine(line)
  {
    if RewriteLine(line) != line {
      var n := SpliceOffset(line);
      SpliceOffsetSpec(line);
      RequiredBecomesToken(line, n);
      var tokens := TokenizeLine(RewriteLine(line));
      var k := |Split(line[..n - 1], ' ')|;
      assert IsDisallowed(tokens[k]);
    }
  }

  // ---------------------------------------------------------------------
  // Whole files

  /** The pre-filter holds exactly when `" set; "` or `" init; "` occurs
      verbatim in the line. */
  lemma LineContainsPropSetOrInitSpec(line: string)
    ensures LineContainsPropSetOrInit(line) <==>
              (exists i :: OccursAt(line, " set; ", i)) || (exists i :: OccursAt(line, " init; ", i))
  {
    ContainsOccurs(line, " set; ");
    ContainsOccurs(line, " init; ");
  }

  /** Some line of the file passes the pre-filter. */
  predicate SomeLinePasses(lines: seq<string>)
  {
    exists j :: 0 <= j < |lines| && LineContainsPropSetOrInit(lines[j])
  }

  /** The filtered lines are empty exactly when no line passes the pre-filter. */
  lemma {:induction false} LinesWithSetOrInitEmpty(lines: seq<string>)
    ensures |LinesWithSetOrInit(lines)| == 0 <==> !SomeLinePasses(lines)
    decreases |lines|
  {
    if |lines| > 0 {
      var init := lines[..|lines| - 1];
      LinesWithSetOrInitEmpty(init);
      if SomeLinePasses(init) {
        var j :| 0 <= j < |init| && LineContainsPropSetOrInit(init[j]);
        assert lines[j] == init[j];
      }
      if SomeLinePasses(lines) && !LineContainsPropSetOrInit(lines[|lines| - 1]) {
        var j :| 0 <= j < |lines| && LineContainsPropSetOrInit(lines[j]);
        assert init[j] == lines[j];
      }
    }
  }

  /** Processing keeps the number of lines; when no line passes the
      pre-filter every line stays as it was, and otherwise each line becomes
      its rewrite, so a line whose tokens are not viable is never changed. */
  lemma ProcessFileLine(lines: seq<string>, k: nat)
    requires k < |lines|
    ensures |ProcessFile(lines).lines| == |lines|
    ensures !SomeLinePasses(lines) ==> ProcessFile(lines).lines[k] == lines[k]
    ensures SomeLinePasses(lines) ==> ProcessFile(lines).lines[k] == RewriteLine(lines[k])
    ensures !IsViableProperty(TokenizeLine(lines[k])) ==> ProcessFile(lines).lines[k] == lines[k]
  {
    LinesWithSetOrInitEmpty(lines);
    MapEachAt(RewriteLine, lines, k);
  }

  /** The file is written back exactly when processing changed its lines;
      in particular, not when no line passes the pre-filter. */
  lemma ProcessFileWritten(lines: seq<string>)
    ensures ProcessFile(lines).written <==> ProcessFile(lines).lines != lines
    ensures !SomeLinePasses(lines) ==> ProcessFile(lines) == FileResult(lines, false)
  {
    LinesWithSetOrInitEmpty(lines);
    SomeChangedIff(RewriteLine, lines);
  }

  /** Processing a processed file changes nothing and does not write it. */
  lemma ProcessFileIdempotent(lines: seq<string>)
    ensures ProcessFile(ProcessFile(lines).lines) == FileResult(ProcessFile(lines).lines, false)
  {
    var once := ProcessFile(lines).lines;
    if |LinesWithSetOrInit(lines)| > 0 {
      forall k | 0 <= k < |lines|
        ensures RewriteLine(RewriteLine(lines[k])) == RewriteLine(lines[k])
      {
        RewriteLineIdempotent(lines[k]);
      }
      MapEachIdempotent(RewriteLine, lines);
      SomeChangedIff(RewriteLine, once);
    }
  }
}
