/**
 * `re.split(r'^## ', content, flags=re.MULTILINE)`: cut a markdown
 * document at every second-level heading marker that starts a line.
 */
module HeadingSplit {

  /** The heading marker the pattern matches after `^`. */
  const Marker: string := "## "

  /** In multi-line mode `^` matches at the start of the text and right
      after every newline. */
  predicate AtLineStart(s: string, i: nat)
    requires i <= |s|
  {
    i == 0 || s[i - 1] == '\n'
  }

  /** The pattern `^## ` matches at position `i` of `s`. */
  predicate IsSplitPoint(s: string, i: nat) {
    i + |Marker| <= |s| && AtLineStart(s, i) && s[i..i + |Marker|] == Marker
  }

  /** The pieces of `s[i..]`: scanning left to right, a match ends the
      current piece and the scan resumes after the matched marker. */
  function SplitFrom(s: string, i: nat): (pieces: seq<string>)
    requires i <= |s|
    ensures |pieces| >= 1
    decreases |s| - i
  {
    if i == |s| then [""]
    else if IsSplitPoint(s, i) then [""] + SplitFrom(s, i + |Marker|)
    else
      var rest := SplitFrom(s, i + 1);
      [[s[i]] + rest[0]] + rest[1..]
  }

  /** The list `re.split(r'^## ', s, flags=re.MULTILINE)` returns. */
  function Split(s: string): (pieces: seq<string>)
    ensures |pieces| >= 1
  {
    SplitFrom(s, 0)
  }

  /** Putting the document back together: the first piece, then each later
      piece behind the marker it was cut at. */
  function Join(pieces: seq<string>): string
    requires |pieces| >= 1
  {
    pieces[0] + JoinHeadings(pieces[1..])
  }

  function JoinHeadings(pieces: seq<string>): string {
    if pieces == [] then [] else Marker + pieces[0] + JoinHeadings(pieces[1..])
  }

  /** The number of positions at or after `i` where the pattern matches. */
  function SplitPointsFrom(s: string, i: nat): nat
    requires i <= |s|
    decreases |s| - i
  {
    if i == |s| then 0
    else (if IsSplitPoint(s, i) then 1 else 0) + SplitPointsFrom(s, i + 1)
  }

  /** Two positions right after a match cannot be matches: a match needs a
      newline before it, and those positions follow a `#`. */
  lemma NoSplitPointInsideMarker(s: string, i: nat, j: nat)
    requires IsSplitPoint(s, i)
    requires i < j < i + |Marker|
    ensures !IsSplitPoint(s, j)
  {
    assert s[j - 1] == s[i..i + |Marker|][j - 1 - i];
  }

  /** Round trip from position `i`. */
  lemma {:induction false} JoinSplitFrom(s: string, i: nat)
    requires i <= |s|
    ensures Join(SplitFrom(s, i)) == s[i..]
    decreases |s| - i
  {
    var pieces := SplitFrom(s, i);
    if i == |s| {
    } else if IsSplitPoint(s, i) {
      var rest := SplitFrom(s, i + |Marker|);
      JoinSplitFrom(s, i + |Marker|);
      assert pieces[1..] == rest;
      assert Join(pieces) == Marker + Join(rest);
      SliceConcat(s, i, i + |Marker|);
    } else {
      var rest := SplitFrom(s, i + 1);
      JoinSplitFrom(s, i + 1);
      assert pieces[1..] == rest[1..];
      assert Join(pieces) == [s[i]] + Join(rest);
      SliceConcat(s, i, i + 1);
    }
  }

  lemma SliceConcat<T>(s: seq<T>, i: nat, j: nat)
    requires i <= j <= |s|
    ensures s[i..] == s[i..j] + s[j..]
  {
  }

  /** Splitting loses nothing: the first piece followed by every later
      piece behind a restored `## ` is the document again. */
  lemma JoinSplit(s: string)
    ensures Join(Split(s)) == s
  {
    JoinSplitFrom(s, 0);
  }

  /** One more piece than there are matches, from position `i`. */
  lemma {:induction false} SplitFromCount(s: string, i: nat)
    requires i <= |s|
    ensures |SplitFrom(s, i)| == 1 + SplitPointsFrom(s, i)
    decreases |s| - i
  {
    if i < |s| {
      if IsSplitPoint(s, i) {
        SplitFromCount(s, i + |Marker|);
        NoSplitPointInsideMarker(s, i, i + 1);
        NoSplitPointInsideMarker(s, i, i + 2);
        assert SplitPointsFrom(s, i + 1) == SplitPointsFrom(s, i + 2);
        assert SplitPointsFrom(s, i + 2) == SplitPointsFrom(s, i + 3);
      } else {
        SplitFromCount(s, i + 1);
      }
    }
  }

  /** The number of pieces is one more than the number of line-start `## `
      markers in the document. */
  lemma SplitCount(s: string)
    ensures |Split(s)| == 1 + SplitPointsFrom(s, 0)
  {
    SplitFromCount(s, 0);
  }

  /** A match inside a slice of `s` is a match in `s` itself, provided the
      slice starts a line or the match is not at the slice's start. */
  lemma SliceSplitPoint(s: string, a: nat, b: nat, j: nat)
    requires a <= b <= |s|
    requires 0 < j || AtLineStart(s, a)
    ensures IsSplitPoint(s[a..b], j) ==> IsSplitPoint(s, a + j)
  {
    if IsSplitPoint(s[a..b], j) {
      SliceOfSlice(s, a, b, j, j + |Marker|);
      if j > 0 {
        assert s[a..b][j - 1] == s[a + j - 1];
      }
    }
  }

  lemma SliceOfSlice<T>(s: seq<T>, a: nat, b: nat, x: nat, y: nat)
    requires a <= b <= |s| && x <= y <= b - a
    ensures s[a..b][x..y] == s[a + x..a + y]
  {
    forall k | 0 <= k < y - x
      ensures s[a..b][x..y][k] == s[a + x..a + y][k]
    {
      assert s[a..b][x..y][k] == s[a..b][x + k];
      assert s[a..b][x + k] == s[a + (x + k)];
    }
  }

  /** The first piece of `s[i..]` holds no match after its first character,
      and none at its start either when `i` starts a line. */
  lemma NoSplitPointInFirstPiece(s: string, i: nat, j: nat)
    requires i <= |s|
    requires 0 < j || AtLineStart(s, i)
    ensures !IsSplitPoint(SplitFrom(s, i)[0], j)
  {
    var f := FirstSplitPointFrom(s, i);
    FirstPieceFrom(s, i);
    SliceSplitPoint(s, i, f, j);
  }

  /** No piece holds a marker at the start of any of its lines after its
      first character, and the first piece of `s[i..]` holds none at its
      start either when `i` itself starts a line. */
  lemma {:induction false} NoSplitPointInPiecesFrom(s: string, i: nat, k: nat, j: nat)
    requires i <= |s|
    requires k < |SplitFrom(s, i)|
    requires 0 < j || (k == 0 && AtLineStart(s, i))
    ensures !IsSplitPoint(SplitFrom(s, i)[k], j)
    decreases |s| - i
  {
    if k == 0 {
      NoSplitPointInFirstPiece(s, i, j);
    } else if IsSplitPoint(s, i) {
      NoSplitPointInPiecesFrom(s, i + |Marker|, k - 1, j);
    } else {
      assert SplitFrom(s, i)[k] == SplitFrom(s, i + 1)[k];
      NoSplitPointInPiecesFrom(s, i + 1, k, j);
    }
  }

  /** No piece holds `## ` at the start of a line after its first
      character; the first piece (the text before the first heading) holds
      none at all. A later piece may itself begin with `## `: the marker
      of `## ## x` ends at the second `##`, which is not at a line start. */
  lemma NoSplitPointInPieces(s: string, k: nat, j: nat)
    requires k < |Split(s)|
    requires 0 < j || k == 0
    ensures !IsSplitPoint(Split(s)[k], j)
  {
    NoSplitPointInPiecesFrom(s, 0, k, j);
  }

  /** Text without a line-start marker from `i` on stays in one piece. */
  lemma {:induction false} SplitFromWithoutSplitPoints(s: string, i: nat)
    requires i <= |s|
    requires forall j | i <= j <= |s| :: !IsSplitPoint(s, j)
    ensures SplitFrom(s, i) == [s[i..]]
    decreases |s| - i
  {
    if i < |s| {
      SplitFromWithoutSplitPoints(s, i + 1);
      assert s[i..] == [s[i]] + s[i + 1..];
    }
  }

  /** Splitting the text before the first heading again changes nothing. */
  lemma SplitFirstPieceAgain(s: string)
    ensures Split(Split(s)[0]) == [Split(s)[0]]
  {
    var p := Split(s)[0];
    forall j | 0 <= j <= |p|
      ensures !IsSplitPoint(p, j)
    {
      NoSplitPointInPieces(s, 0, j);
    }
    SplitFromWithoutSplitPoints(p, 0);
  }

  /** The first position at or after `i` where the pattern matches, or
      `|s|` when there is none. */
  function FirstSplitPointFrom(s: string, i: nat): (n: nat)
    requires i <= |s|
    ensures i <= n <= |s|
    ensures n == |s| || IsSplitPoint(s, n)
    ensures forall j | i <= j < n :: !IsSplitPoint(s, j)
    decreases |s| - i
  {
    if i == |s| || IsSplitPoint(s, i) then i else FirstSplitPointFrom(s, i + 1)
  }

  lemma {:induction false} FirstPieceFrom(s: string, i: nat)
    requires i <= |s|
    ensures SplitFrom(s, i)[0] == s[i..FirstSplitPointFrom(s, i)]
    decreases |s| - i
  {
    if i < |s| && !IsSplitPoint(s, i) {
      FirstPieceFrom(s, i + 1);
      assert s[i..FirstSplitPointFrom(s, i)] == [s[i]] + s[i + 1..FirstSplitPointFrom(s, i)];
    }
  }

  /** The first piece is the document up to its first line-start marker,
      or the whole document when it has none. */
  lemma FirstPieceIsPrefix(s: string)
    ensures Split(s)[0] == s[..FirstSplitPointFrom(s, 0)]
  {
    FirstPieceFrom(s, 0);
  }

  /** A heading at the very start of the document leaves nothing before
      it: the first piece is empty. */
  lemma LeadingHeadingEmptyFirstPiece(s: string)
    requires IsSplitPoint(s, 0)
    ensures Split(s)[0] == ""
  {
    FirstPieceIsPrefix(s);
  }

  /** Wherever `### ` (a third-level heading) stands, the pattern does not
      match there: its third character is `#`, not a space. */
  lemma ThirdLevelHeadingNeverSplitPoint(s: string, i: nat)
    requires i + 4 <= |s| && s[i..i + 4] == "### "
    ensures !IsSplitPoint(s, i)
  {
    assert s[i + 2] == s[i..i + 4][2];
  }

  /** Example: a line that starts `### ` is a third-level heading, not a
      cut. */
  lemma ThirdLevelHeadingNotSplit()
    ensures Split("a\n### b") == ["a\n### b"]
  {
    var s := "a\n### b";
    forall j | 0 <= j <= |s|
      ensures !IsSplitPoint(s, j)
    {
      if j + |Marker| <= |s| {
        if j == 0 {
          assert s[0] != Marker[0];
        } else if j == 2 {
          assert s[4] != Marker[2];
        } else {
          assert s[j - 1] != '\n';
        }
      }
    }
    SplitFromWithoutSplitPoints(s, 0);
  }

  /** Example: a heading right at the start gives an empty first piece,
      and a piece can begin with `## ` when two markers follow each other
      on one line. */
  lemma LeadingHeadingSplit()
    ensures Split("## ## x") == ["", "## x"]
  {
    var s := "## ## x";
    assert IsSplitPoint(s, 0);
    forall j | 3 <= j <= |s|
      ensures !IsSplitPoint(s, j)
    {
      if j + |Marker| <= |s| {
        assert s[j - 1] == if j == 3 then ' ' else '#';
      }
    }
    SplitFromWithoutSplitPoints(s, 3);
  }
}
