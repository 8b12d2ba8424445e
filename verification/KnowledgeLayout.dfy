/** What the text extractor reads of a token stream, and how it lays the text out in lines of words. */
module KnowledgeLayout {
  import opened Text
  import opened Pieces
  import opened KnowledgeContent
  import opened KnowledgeOutput
  import opened KnowledgeText

  // ---------------------------------------------------------------- the extracted text

  /** What one token outside dropped regions adds: its decoded text, or the line end of a breaking tag. */
  predicate Adds(decode: string -> string, t: Token, piece: string) {
    match t
    case Words(data) => piece == decode(data)
    case Start(tag, _) => piece == if tag in Breaking then "\n" else ""
    case SelfClosing(tag, _) => piece == if tag in Breaking then "\n" else ""
    case End(tag) => piece == if tag in Breaking then "\n" else ""
    case Other => piece == ""
  }

  ghost predicate TextFits(decode: string -> string, ts: seq<Token>, i: nat, piece: string)
    requires i < |ts|
  {
    if Dropped(ts, i) then piece == "" else Adds(decode, ts[i], piece)
  }

  ghost predicate TextsFit(decode: string -> string, ts: seq<Token>, pieces: seq<string>) {
    |pieces| <= |ts| && forall i | 0 <= i < |pieces| :: TextFits(decode, ts, i, pieces[i])
  }

  function FlatText(pieces: seq<string>): string {
    if pieces == [] then "" else FlatText(pieces[..|pieces| - 1]) + pieces[|pieces| - 1]
  }

  lemma TextNext(decode: string -> string, ts: seq<Token>, n: nat)
    requires n < |ts|
    ensures Extracted(decode, ts, n + 1) ==
            Extracted(decode, ts, n) + if RegionAt(ts, n).None? then KnowledgeText.Piece(decode, ts[n]) else ""
    ensures Adds(decode, ts[n], KnowledgeText.Piece(decode, ts[n]))
  {
  }

  lemma FlatNext(pieces: seq<string>, piece: string)
    ensures FlatText(pieces + [piece]) == FlatText(pieces) + piece
  {
    assert (pieces + [piece])[..|pieces|] == pieces;
  }

  lemma OneMoreText(decode: string -> string, ts: seq<Token>, pieces: seq<string>, piece: string)
    requires |pieces| < |ts| && TextsFit(decode, ts, pieces) && TextFits(decode, ts, |pieces|, piece)
    ensures TextsFit(decode, ts, pieces + [piece])
  {
    var more := pieces + [piece];
    forall i | 0 <= i < |more| ensures TextFits(decode, ts, i, more[i]) {
      assert more[i] == if i < |pieces| then pieces[i] else piece;
      if i < |pieces| {
        assert TextFits(decode, ts, i, pieces[i]);
      }
    }
  }

  lemma {:induction false} PrefixTexts(decode: string -> string, ts: seq<Token>, n: nat) returns (pieces: seq<string>)
    requires n <= |ts|
    ensures |pieces| == n && TextsFit(decode, ts, pieces) && Extracted(decode, ts, n) == FlatText(pieces)
  {
    if n == 0 {
      pieces := [];
    } else {
      var before := PrefixTexts(decode, ts, n - 1);
      DroppedIsRegion(ts, n - 1);
      TextNext(decode, ts, n - 1);
      var piece := if RegionAt(ts, n - 1).None? then KnowledgeText.Piece(decode, ts[n - 1]) else "";
      OneMoreText(decode, ts, before, piece);
      FlatNext(before, piece);
      pieces := before + [piece];
    }
  }

  // ---------------------------------------------------------------- lines and words

  ghost predicate OneLine(s: string) {
    forall i | 0 <= i < |s| :: s[i] != '\n'
  }

  /** A text is the join of its lines at the line ends. */
  lemma {:induction false} LinesAreCut(s: string)
    ensures Join(SplitLines(s), "\n") == s && forall i | 0 <= i < |SplitLines(s)| :: OneLine(SplitLines(s)[i])
  {
    if s != "" {
      var rest, lines := SplitLines(s[1..]), SplitLines(s);
      LinesAreCut(s[1..]);
      assert s == [s[0]] + s[1..];
      if s[0] == '\n' {
        assert lines[1..] == rest && "" + "\n" + Join(rest, "\n") == ['\n'] + Join(rest, "\n");
      } else {
        LongerLine(s[0], rest);
      }
    }
  }

  lemma LongerLine(c: char, lines: seq<string>)
    requires lines != []
    ensures Join([[c] + lines[0]] + lines[1..], "\n") == [c] + Join(lines, "\n")
  {
    var longer := [[c] + lines[0]] + lines[1..];
    assert longer[1..] == lines[1..];
    if |lines| > 1 {
      Regroup([c], lines[0], "\n");
      Regroup([c], lines[0] + "\n", Join(lines[1..], "\n"));
    }
  }

  lemma {:induction false} WordsBetweenGaps(s: string) returns (gaps: seq<string>)
    ensures AreGaps(gaps, Fields(s), UnicodeSpace) && Interleaved(gaps, Fields(s)) == s
    ensures s != "" && !UnicodeSpace(s[0]) ==> Fields(s) != [] && gaps[0] == ""
    ensures s != "" && UnicodeSpace(s[0]) ==> gaps[0] != ""
  {
    if s == "" {
      gaps := [""];
    } else {
      var rest := Fields(s[1..]);
      var after := WordsBetweenGaps(s[1..]);
      assert s == [s[0]] + s[1..];
      if UnicodeSpace(s[0]) {
        gaps := [[s[0]] + after[0]] + after[1..];
        GapGrows(s[0], after, rest, UnicodeSpace);
      } else if |s| == 1 || UnicodeSpace(s[1]) {
        gaps := [""] + after;
        FieldBegins(s[0], after, rest, UnicodeSpace);
      } else {
        gaps := after;
        FieldGrows(s[0], after, rest, UnicodeSpace);
      }
    }
  }

  /** The places of the lines that hold a word, and the words of each. */
  ghost predicate HoldsWords(physical: seq<string>, places: seq<nat>, lines: seq<seq<string>>) {
    && |places| == |lines|
    && (forall k | 0 <= k < |places| ::
          places[k] < |physical| && lines[k] != [] && MaximalPieces(physical[places[k]], lines[k], UnicodeSpace))
    && (forall j, k | 0 <= j < k < |places| :: places[j] < places[k])
    && (forall i | 0 <= i < |physical| && !Blank(physical[i], UnicodeSpace) :: i in places)
  }

  lemma BlankHasNoWord(s: string)
    ensures Fields(s) == [] ==> Blank(s, UnicodeSpace)
  {
    if Fields(s) == [] {
      var gaps := WordsBetweenGaps(s);
      assert gaps[0] == s;
    }
  }

  lemma OneMoreLine(physical: seq<string>, places: seq<nat>, lines: seq<seq<string>>, line: string)
    requires HoldsWords(physical, places, lines)
    ensures Fields(line) == [] ==> HoldsWords(physical + [line], places, lines)
    ensures Fields(line) != [] ==> HoldsWords(physical + [line], places + [|physical|], lines + [Fields(line)])
  {
    var more := physical + [line];
    assert more[|physical|] == line && forall i | 0 <= i < |physical| :: more[i] == physical[i];
    BlankHasNoWord(line);
    var gaps := WordsBetweenGaps(line);
    if Fields(line) != [] {
      var all := places + [|physical|];
      assert all[|places|] == |physical|;
      forall i | 0 <= i < |more| && !Blank(more[i], UnicodeSpace) ensures i in all {
        if i < |physical| {
          assert i in places;
        }
      }
      assert MaximalPieces(line, Fields(line), UnicodeSpace);
    }
  }

  ghost predicate KeptHeld(physical: seq<string>, n: nat, places: seq<nat>)
    requires n <= |physical|
  {
    HoldsWords(physical[..n], places, KeptLines(physical, n))
  }

  lemma NoLine(physical: seq<string>)
    ensures KeptHeld(physical, 0, [])
  {
  }

  lemma NextLine(physical: seq<string>, places: seq<nat>, n: nat) returns (next: seq<nat>)
    requires n < |physical| && KeptHeld(physical, n, places)
    ensures KeptHeld(physical, n + 1, next)
  {
    var lines := KeptLines(physical, n);
    assert physical[..n + 1] == physical[..n] + [physical[n]] && |physical[..n]| == n;
    OneMoreLine(physical[..n], places, lines, physical[n]);
    if Fields(physical[n]) == [] {
      next := places;
      assert KeptLines(physical, n + 1) == lines + [] == lines;
    } else {
      next := places + [n];
      assert KeptLines(physical, n + 1) == lines + [Fields(physical[n])];
    }
  }

  lemma {:induction false} KeptHoldWords(physical: seq<string>, n: nat) returns (places: seq<nat>)
    requires n <= |physical|
    ensures KeptHeld(physical, n, places)
  {
    if n == 0 {
      NoLine(physical);
      places := [];
    } else {
      var before := KeptHoldWords(physical, n - 1);
      places := NextLine(physical, before, n - 1);
    }
  }

  // ---------------------------------------------------------------- the laid-out text

  lemma {:induction false} JoinIsTight(words: seq<string>, sep: string)
    requires words != [] && forall i | 0 <= i < |words| :: words[i] != "" && Tight(words[i], UnicodeSpace)
    ensures Join(words, sep) != "" && Tight(Join(words, sep), UnicodeSpace)
  {
    if |words| > 1 {
      JoinIsTight(words[1..], sep);
      var rest, all := Join(words[1..], sep), Join(words, sep);
      assert all[0] == words[0][0] && all[|all| - 1] == rest[|rest| - 1];
    }
  }

  /** The words of each line are joined by single spaces, the lines by line ends. */
  lemma LayoutIsJoined(lines: seq<seq<string>>)
    requires forall k | 0 <= k < |lines| :: lines[k] != [] && forall i | 0 <= i < |lines[k]| ::
               lines[k][i] != "" && forall j | 0 <= j < |lines[k][i]| :: !UnicodeSpace(lines[k][i][j])
    ensures Layout(lines) == Join(Spaced(lines), "\n")
  {
    var rows := Spaced(lines);
    if lines != [] {
      forall k | 0 <= k < |rows| ensures rows[k] != "" && Tight(rows[k], UnicodeSpace) {
        assert forall i | 0 <= i < |lines[k]| :: Tight(lines[k][i], UnicodeSpace);
        JoinIsTight(lines[k], " ");
      }
      JoinIsTight(rows, "\n");
      TrimOfTight(Join(rows, "\n"));
    }
  }

  /**
   * For every input the extracted text is made of what its tokens outside dropped regions add: of the lines of that text
   * those that hold a word are kept, in order, with their words joined by single spaces.
   */
  lemma TextIsLaidOut(decode: string -> string, ts: seq<Token>)
    returns (pieces: seq<string>, physical: seq<string>, places: seq<nat>, lines: seq<seq<string>>)
    ensures |pieces| == |ts| && TextsFit(decode, ts, pieces)
    ensures Join(physical, "\n") == FlatText(pieces) && forall i | 0 <= i < |physical| :: OneLine(physical[i])
    ensures HoldsWords(physical, places, lines)
    ensures |Spaced(lines)| == |lines| && forall k | 0 <= k < |lines| :: Spaced(lines)[k] == Join(lines[k], " ")
    ensures ContentText(decode, ts) == Join(Spaced(lines), "\n")
  {
    pieces := PrefixTexts(decode, ts, |ts|);
    physical := SplitLines(FlatText(pieces));
    LinesAreCut(FlatText(pieces));
    places := KeptHoldWords(physical, |physical|);
    assert physical[..|physical|] == physical;
    lines := KeptLines(physical, |physical|);
    forall k | 0 <= k < |lines|
      ensures forall i | 0 <= i < |lines[k]| :: lines[k][i] != "" && forall j | 0 <= j < |lines[k][i]| :: !UnicodeSpace(lines[k][i][j])
    {
      var gaps :| AreGaps(gaps, lines[k], UnicodeSpace) && Interleaved(gaps, lines[k]) == physical[places[k]];
    }
    LayoutIsJoined(lines);
  }
}
