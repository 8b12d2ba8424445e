/** A text cut at separators: gaps and fields in turn. */
module Pieces {
  import opened Text

  /** Gaps and fields in turn, a gap first and last. */
  function Interleaved(gaps: seq<string>, fields: seq<string>): string
    requires |gaps| == |fields| + 1
  {
    if fields == [] then gaps[0] else gaps[0] + fields[0] + Interleaved(gaps[1..], fields[1..])
  }

  /** The gaps hold separators only, none between two fields is empty, and the fields hold none and are not empty. */
  ghost predicate AreGaps(gaps: seq<string>, fields: seq<string>, sp: char -> bool) {
    && |gaps| == |fields| + 1
    && (forall i | 0 <= i < |gaps| :: Blank(gaps[i], sp))
    && (forall i | 0 < i < |fields| :: gaps[i] != "")
    && (forall i | 0 <= i < |fields| :: fields[i] != "" && forall k | 0 <= k < |fields[i]| :: !sp(fields[i][k]))
  }

  /** The fields are the maximal pieces of the text without separators, in order. */
  ghost predicate MaximalPieces(s: string, fields: seq<string>, sp: char -> bool) {
    exists gaps :: AreGaps(gaps, fields, sp) && Interleaved(gaps, fields) == s
  }

  lemma LongerGap(c: char, gaps: seq<string>, fields: seq<string>)
    requires |gaps| == |fields| + 1
    ensures Interleaved([[c] + gaps[0]] + gaps[1..], fields) == [c] + Interleaved(gaps, fields)
  {
    var more := [[c] + gaps[0]] + gaps[1..];
    assert more[1..] == gaps[1..];
    if fields != [] {
      Regroup([c], gaps[0], fields[0]);
      Regroup([c], gaps[0] + fields[0], Interleaved(gaps[1..], fields[1..]));
    }
  }

  lemma LongerField(c: char, gaps: seq<string>, fields: seq<string>)
    requires |gaps| == |fields| + 1 && fields != [] && gaps[0] == ""
    ensures Interleaved(gaps, [[c] + fields[0]] + fields[1..]) == [c] + Interleaved(gaps, fields)
  {
    var more := [[c] + fields[0]] + fields[1..];
    var rest := Interleaved(gaps[1..], fields[1..]);
    assert more[1..] == fields[1..] && more[0] == [c] + fields[0];
    assert gaps[0] + more[0] == more[0] && gaps[0] + fields[0] == fields[0];
    Regroup([c], fields[0], rest);
  }

  lemma FirstField(c: char, gaps: seq<string>, fields: seq<string>)
    requires |gaps| == |fields| + 1
    ensures Interleaved([""] + gaps, [[c]] + fields) == [c] + Interleaved(gaps, fields)
  {
    var moreGaps, more := [""] + gaps, [[c]] + fields;
    assert moreGaps[1..] == gaps && more[1..] == fields && moreGaps[0] + more[0] == [c];
  }

  lemma GapGrows(c: char, gaps: seq<string>, fields: seq<string>, sp: char -> bool)
    requires AreGaps(gaps, fields, sp) && sp(c)
    ensures AreGaps([[c] + gaps[0]] + gaps[1..], fields, sp)
    ensures Interleaved([[c] + gaps[0]] + gaps[1..], fields) == [c] + Interleaved(gaps, fields)
  {
    LongerGap(c, gaps, fields);
  }

  lemma FieldBegins(c: char, gaps: seq<string>, fields: seq<string>, sp: char -> bool)
    requires AreGaps(gaps, fields, sp) && !sp(c) && (fields != [] ==> gaps[0] != "")
    ensures AreGaps([""] + gaps, [[c]] + fields, sp)
    ensures Interleaved([""] + gaps, [[c]] + fields) == [c] + Interleaved(gaps, fields)
  {
    FirstField(c, gaps, fields);
  }

  lemma FieldGrows(c: char, gaps: seq<string>, fields: seq<string>, sp: char -> bool)
    requires AreGaps(gaps, fields, sp) && !sp(c) && fields != [] && gaps[0] == ""
    ensures AreGaps(gaps, [[c] + fields[0]] + fields[1..], sp)
    ensures Interleaved(gaps, [[c] + fields[0]] + fields[1..]) == [c] + Interleaved(gaps, fields)
  {
    LongerField(c, gaps, fields);
  }
}
