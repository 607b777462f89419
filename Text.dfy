/** The few .NET string operations the rewriter relies on, as functions on
    `seq<char>`: ordinal substring search (`String.IndexOf`, `String.Contains`),
    `String.Insert`, `String.Trim` and `String.Split` on one separator character
    without removal of empty entries. Each is stated against a declarative
    description of what the library documents, and `Split` is paired with
    `Join`, its inverse. */
module Text {

  /** `Char.IsWhiteSpace`: the characters `String.Trim()` removes (Unicode
      categories Zs, Zl and Zp, plus U+0009..U+000D, U+0085 and U+00A0). */
  predicate IsWhite(c: char) {
    c == ' ' || ('\t' <= c <= '\r') || c == '\U{85}' || c == '\U{A0}' || c == '\U{1680}'
    || ('\U{2000}' <= c <= '\U{200A}') || c == '\U{2028}' || c == '\U{2029}'
    || c == '\U{202F}' || c == '\U{205F}' || c == '\U{3000}'
  }

  /** `pat` occurs in `s` starting at offset `i` (ordinal, character by character). */
  predicate OccursAt(s: string, pat: string, i: int) {
    0 <= i && i + |pat| <= |s| && s[i..i + |pat|] == pat
  }

  /** The ordinal search behind `IndexOf`, from offset `from` on; a helper
      that lets the search be stated and proved by induction on the offset. */
  function IndexOfFrom(s: string, pat: string, from: nat): (r: int)
    requires from <= |s|
    ensures r == -1 || from <= r <= |s| - |pat|
    decreases |s| - from
  {
    if OccursAt(s, pat, from) then from
    else if |s| <= from + |pat| then -1
    else IndexOfFrom(s, pat, from + 1)
  }

  /** The search from `from` finds the first occurrence at or after `from`,
      and -1 exactly when there is none. */
  lemma {:induction false} IndexOfFromIsFirst(s: string, pat: string, from: nat)
    requires from <= |s|
    ensures IndexOfFrom(s, pat, from) == -1 <==> forall i :: from <= i ==> !OccursAt(s, pat, i)
    ensures IndexOfFrom(s, pat, from) >= 0 ==>
              OccursAt(s, pat, IndexOfFrom(s, pat, from))
              && forall j :: from <= j < IndexOfFrom(s, pat, from) ==> !OccursAt(s, pat, j)
    decreases |s| - from
  {
    if !OccursAt(s, pat, from) && from + |pat| < |s| {
      IndexOfFromIsFirst(s, pat, from + 1);
    }
  }

  /** `s.IndexOf(pat, StringComparison.Ordinal)`: the offset of the first
      occurrence of `pat` in `s`, or -1 when there is none. */
  function IndexOf(s: string, pat: string): (r: int)
    ensures r == -1 || 0 <= r <= |s| - |pat|
  {
    IndexOfFrom(s, pat, 0)
  }

  /** `IndexOf` is -1 exactly when `pat` does not occur, and otherwise the
      offset of its first occurrence. */
  lemma IndexOfIsFirst(s: string, pat: string)
    ensures IndexOf(s, pat) == -1 <==> forall i :: !OccursAt(s, pat, i)
    ensures IndexOf(s, pat) >= 0 ==>
              OccursAt(s, pat, IndexOf(s, pat)) && forall j :: 0 <= j < IndexOf(s, pat) ==> !OccursAt(s, pat, j)
  {
    IndexOfFromIsFirst(s, pat, 0);
  }

  /** `s.Contains(pat, StringComparison.Ordinal)`. */
  predicate Contains(s: string, pat: string)
  {
    IndexOf(s, pat) >= 0
  }

  /** `Contains` holds exactly when `pat` occurs somewhere in `s`. */
  lemma ContainsOccurs(s: string, pat: string)
    ensures Contains(s, pat) <==> exists i :: OccursAt(s, pat, i)
  {
    IndexOfIsFirst(s, pat);
  }

  /** `s.Insert(at, ins)`. */
  function Insert(s: string, at: nat, ins: string): (r: string)
    requires at <= |s|
    ensures |r| == |s| + |ins|
  {
    s[..at] + ins + s[at..]
  }

  /** The inserted text sits at `at`, with `s` unchanged on both sides of it,
      so deleting it gives back `s`. */
  lemma InsertShape(s: string, at: nat, ins: string)
    requires at <= |s|
    ensures OccursAt(Insert(s, at, ins), ins, at)
    ensures Insert(s, at, ins)[..at] == s[..at] && Insert(s, at, ins)[at + |ins|..] == s[at..]
    ensures Insert(s, at, ins)[..at] + Insert(s, at, ins)[at + |ins|..] == s
  {
  }

  /** Drops the whitespace at the front: a helper for describing `Trim`. */
  function TrimStart(s: string): (r: string)
    ensures |r| <= |s|
  {
    if |s| > 0 && IsWhite(s[0]) then TrimStart(s[1..]) else s
  }

  /** Drops the whitespace at the back: a helper for describing `Trim`. */
  function TrimEnd(s: string): (r: string)
    ensures |r| <= |s|
  {
    if |s| > 0 && IsWhite(s[|s| - 1]) then TrimEnd(s[..|s| - 1]) else s
  }

  /** `String.Trim()`: drops the whitespace on both sides. */
  function Trim(s: string): (r: string)
    ensures |r| <= |s|
  {
    if |s| > 0 && IsWhite(s[0]) then Trim(s[1..])
    else if |s| > 0 && IsWhite(s[|s| - 1]) then Trim(s[..|s| - 1])
    else s
  }

  /** Trimming both sides is trimming the front, then the back. */
  lemma {:induction false} TrimBothSides(s: string)
    ensures Trim(s) == TrimEnd(TrimStart(s))
    decreases |s|
  {
    if |s| > 0 && IsWhite(s[0]) {
      TrimBothSides(s[1..]);
    } else if |s| > 0 && IsWhite(s[|s| - 1]) {
      var t := s[..|s| - 1];
      TrimBothSides(t);
      if |t| > 0 {
        assert t[0] == s[0];
      }
    }
  }

  /** `TrimStart(s)` is what follows a run of whitespace at the front of `s`,
      and it does not start with whitespace. */
  lemma {:induction false} TrimStartIsSuffix(s: string)
    ensures TrimStart(s) == s[|s| - |TrimStart(s)|..]
    ensures forall k :: 0 <= k < |s| - |TrimStart(s)| ==> IsWhite(s[k])
    ensures TrimStart(s) == [] || !IsWhite(TrimStart(s)[0])
  {
    if |s| > 0 && IsWhite(s[0]) {
      TrimStartIsSuffix(s[1..]);
      assert s[1..][|s| - 1 - |TrimStart(s)|..] == s[|s| - |TrimStart(s)|..];
      forall k | 1 <= k < |s| - |TrimStart(s)|
        ensures IsWhite(s[k])
      {
        assert s[k] == s[1..][k - 1];
      }
    }
  }

  /** `TrimEnd(s)` is what precedes a run of whitespace at the back of `s`,
      and it does not end with whitespace. */
  lemma {:induction false} TrimEndIsPrefix(s: string)
    ensures TrimEnd(s) == s[..|TrimEnd(s)|]
    ensures forall k :: |TrimEnd(s)| <= k < |s| ==> IsWhite(s[k])
    ensures TrimEnd(s) == [] || !IsWhite(TrimEnd(s)[|TrimEnd(s)| - 1])
  {
    if |s| > 0 && IsWhite(s[|s| - 1]) {
      TrimEndIsPrefix(s[..|s| - 1]);
      assert s[..|s| - 1][..|TrimEnd(s)|] == s[..|TrimEnd(s)|];
    }
  }

  /** How many characters `Trim` drops from the front of `s`. */
  function TrimOffset(s: string): (n: nat)
  {
    |s| - |TrimStart(s)|
  }

  /** `Trim(s)` is the run of `s` at `TrimOffset(s)`, with only whitespace
      before and after it, and it neither starts nor ends with whitespace. */
  lemma TrimIsInfix(s: string)
    ensures TrimOffset(s) + |Trim(s)| <= |s|
    ensures Trim(s) == s[TrimOffset(s)..TrimOffset(s) + |Trim(s)|]
    ensures forall k :: 0 <= k < TrimOffset(s) ==> IsWhite(s[k])
    ensures forall k :: TrimOffset(s) + |Trim(s)| <= k < |s| ==> IsWhite(s[k])
    ensures Trim(s) == [] || (!IsWhite(Trim(s)[0]) && !IsWhite(Trim(s)[|Trim(s)| - 1]))
  {
    var u := TrimStart(s);
    TrimBothSides(s);
    TrimStartIsSuffix(s);
    TrimEndIsPrefix(u);
    var i := |s| - |u|;
    var t := Trim(s);
    assert t == u[..|t|];
    assert t == s[i..i + |t|];
    forall k | i + |t| <= k < |s|
      ensures IsWhite(s[k])
    {
      assert s[k] == u[k - i];
    }
  }

  /** A string without leading or trailing whitespace is its own trim. */
  lemma TrimOfTrimmed(s: string)
    requires s == [] || (!IsWhite(s[0]) && !IsWhite(s[|s| - 1]))
    ensures Trim(s) == s
  {
  }

  /** `s.Split(sep)`: the pieces of `s` between occurrences of `sep`, empty
      pieces kept, so `k` separators give `k + 1` pieces. */
  function Split(s: string, sep: char): (r: seq<string>)
    ensures |r| >= 1
    decreases |s|
  {
    if |s| == 0 then [""]
    else
      var rest := Split(s[1..], sep);
      assert s == [s[0]] + s[1..];
      if s[0] == sep then [""] + rest
      else [[s[0]] + rest[0]] + rest[1..]
  }

  /** No piece holds the separator. */
  lemma {:induction false} SplitPiecesNoSep(s: string, sep: char, k: nat)
    requires k < |Split(s, sep)|
    ensures forall j :: 0 <= j < |Split(s, sep)[k]| ==> Split(s, sep)[k][j] != sep
    decreases |s|
  {
    if |s| > 0 {
      var rest := Split(s[1..], sep);
      if s[0] == sep {
        if k > 0 {
          SplitPiecesNoSep(s[1..], sep, k - 1);
        }
      } else if k == 0 {
        SplitPiecesNoSep(s[1..], sep, 0);
        assert Split(s, sep)[0] == [s[0]] + rest[0];
      } else {
        SplitPiecesNoSep(s[1..], sep, k);
        assert Split(s, sep)[k] == rest[k];
      }
    }
  }

  /** `Trim` applied to every piece, as `StringSplitOptions.TrimEntries` does;
      no piece is dropped. */
  function TrimEach(ps: seq<string>): (r: seq<string>)
    ensures |r| == |ps|
  {
    if |ps| == 0 then [] else [Trim(ps[0])] + TrimEach(ps[1..])
  }

  /** Piece `k` of the result is the trim of piece `k`. */
  lemma {:induction false} TrimEachAt(ps: seq<string>, k: nat)
    requires k < |ps|
    ensures TrimEach(ps)[k] == Trim(ps[k])
    decreases k
  {
    if k > 0 {
      TrimEachAt(ps[1..], k - 1);
    }
  }

  /** `TrimEach` works piece by piece, so it distributes over concatenation. */
  lemma {:induction false} TrimEachAppend(a: seq<string>, b: seq<string>)
    ensures TrimEach(a + b) == TrimEach(a) + TrimEach(b)
    decreases |a|
  {
    if |a| == 0 {
      assert a + b == b;
    } else {
      assert (a + b)[0] == a[0] && (a + b)[1..] == a[1..] + b;
      TrimEachAppend(a[1..], b);
      assert TrimEach(a + b) == [Trim(a[0])] + TrimEach(a[1..] + b);
    }
  }

  /** `k` separators give `k + 1` pieces. */
  lemma {:induction false} SplitCount(s: string, sep: char)
    ensures |Split(s, sep)| == multiset(s)[sep] + 1
    decreases |s|
  {
    if |s| > 0 {
      SplitCount(s[1..], sep);
      assert s == [s[0]] + s[1..];
      assert multiset(s) == multiset{s[0]} + multiset(s[1..]);
    }
  }

  /** The pieces joined back with `sep` between them. */
  function Join(ps: seq<string>, sep: char): (s: string)
    requires |ps| >= 1
  {
    if |ps| == 1 then ps[0] else ps[0] + [sep] + Join(ps[1..], sep)
  }

  /** Splitting at a separator splits the two sides independently. */
  lemma {:induction false} SplitAround(x: string, sep: char, y: string)
    ensures Split(x + [sep] + y, sep) == Split(x, sep) + Split(y, sep)
    decreases |x|
  {
    var s := x + [sep] + y;
    if |x| == 0 {
      assert s[1..] == y;
    } else {
      assert s[1..] == x[1..] + [sep] + y;
      SplitAround(x[1..], sep, y);
    }
  }

  /** A piece with no separator splits to itself. */
  lemma {:induction false} SplitOfPiece(p: string, sep: char)
    requires sep !in p
    ensures Split(p, sep) == [p]
    decreases |p|
  {
    if |p| > 0 {
      assert p == [p[0]] + p[1..];
      SplitOfPiece(p[1..], sep);
    }
  }

  /** Joining the pieces gives back the string: nothing is lost by `Split`. */
  lemma {:induction false} JoinSplit(s: string, sep: char)
    ensures Join(Split(s, sep), sep) == s
    decreases |s|
  {
    if |s| > 0 {
      var rest := Split(s[1..], sep);
      JoinSplit(s[1..], sep);
      assert s == [s[0]] + s[1..];
      if s[0] == sep {
        assert Split(s, sep) == [""] + rest;
        assert Join(Split(s, sep), sep) == "" + [sep] + Join(rest, sep);
      } else if |rest| == 1 {
        assert Split(s, sep) == [[s[0]] + rest[0]];
      } else {
        var ps := Split(s, sep);
        assert ps == [[s[0]] + rest[0]] + rest[1..];
        assert ps[1..] == rest[1..];
        assert Join(ps, sep) == [s[0]] + rest[0] + [sep] + Join(rest[1..], sep);
        assert Join(rest, sep) == rest[0] + [sep] + Join(rest[1..], sep);
      }
    }
  }

  /** Splitting the joined pieces gives back the pieces, when no piece holds the separator. */
  lemma {:induction false} SplitJoin(ps: seq<string>, sep: char)
    requires |ps| >= 1
    requires forall k :: 0 <= k < |ps| ==> sep !in ps[k]
    ensures Split(Join(ps, sep), sep) == ps
    decreases |ps|
  {
    SplitOfPiece(ps[0], sep);
    if |ps| > 1 {
      SplitAround(ps[0], sep, Join(ps[1..], sep));
      SplitJoin(ps[1..], sep);
    }
  }
}
