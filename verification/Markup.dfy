/** Text put together from pieces that each end in their only '>', and the tags that do not occur in it. */
module Markup {
  import opened Text

  /** A tag is text that ends in its only '>'. */
  predicate IsTag(tag: string) {
    |tag| >= 6 && tag[|tag| - 1] == '>' && forall k | 0 <= k < |tag| - 1 :: tag[k] != '>'
  }

  /** The text ends differently from the tag, at one of three places. */
  predicate EndsApart(p: string, tag: string)
    requires |tag| >= 6
  {
    || (|p| >= 2 && p[|p| - 2] != tag[|tag| - 2])
    || (|p| >= 3 && p[|p| - 3] != tag[|tag| - 3])
    || (|p| >= 6 && p[|p| - 6] != tag[|tag| - 6])
  }

  /** Text that ends in its only '>' and not in the tag. */
  predicate Piece(p: string, tag: string)
    requires |tag| >= 6
  {
    p != "" && p[|p| - 1] == '>' && (forall k | 0 <= k < |p| - 1 :: p[k] != '>') && EndsApart(p, tag)
  }

  lemma PieceJoin(a: string, b: string, tag: string)
    requires |tag| >= 6 && '>' !in a && Piece(b, tag)
    ensures Piece(a + b, tag)
  {
    var s := a + b;
    forall k | |a| <= k < |s| ensures s[k] == b[k - |a|] {}
  }

  /** Text in which the tag does not occur and which is empty or ends in '>'. */
  ghost predicate Clean(s: string, tag: string) {
    (s != "" ==> s[|s| - 1] == '>') && forall i: nat :: !OccursAt(s, tag, i)
  }

  lemma PieceClean(p: string, tag: string)
    requires IsTag(tag) && Piece(p, tag)
    ensures Clean(p, tag)
  {
    var m := |tag| - 1;
    forall i: nat ensures !OccursAt(p, tag, i) {
      if i + m < |p| - 1 {
        Mismatch(p, tag, i, m);
      } else if i + m == |p| - 1 {
        Mismatch(p, tag, i, if p[|p| - 2] != tag[m - 1] then m - 1 else if |p| >= 3 && p[|p| - 3] != tag[m - 2] then m - 2 else m - 5);
      }
    }
  }

  /** A tag cannot straddle the end of clean text: it would hold a '>' before its own. */
  lemma CleanConcat(a: string, b: string, tag: string)
    requires IsTag(tag) && Clean(a, tag) && Clean(b, tag)
    ensures Clean(a + b, tag)
  {
    var s := a + b;
    assert s[..|a|] == a && s[|a|..] == b;
    forall i: nat ensures !OccursAt(s, tag, i) {
      if i + |tag| <= |a| {
        OccursInPrefix(s, tag, |a|, i);
      } else if i >= |a| {
        OccursInSuffix(s, tag, |a|, i - |a|);
      } else {
        Mismatch(s, tag, i, |a| - 1 - i);
      }
    }
  }

  function Flatten(pieces: seq<string>): string {
    if pieces == [] then "" else pieces[0] + Flatten(pieces[1..])
  }

  lemma {:induction false} PiecesClean(pieces: seq<string>, tag: string)
    requires IsTag(tag) && forall p | p in pieces :: Piece(p, tag)
    ensures Clean(Flatten(pieces), tag)
  {
    if pieces != [] {
      PieceClean(pieces[0], tag);
      PiecesClean(pieces[1..], tag);
      CleanConcat(pieces[0], Flatten(pieces[1..]), tag);
    }
  }
}
