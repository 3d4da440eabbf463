/** The text effects of the edit keys on plain strings and on the list of
    paragraph texts, with the laws that make them each other's undo. */
module Edits {
  import opened Wrapper
  import opened Buffer

  /** `line.insert(i, c)` on the list of a paragraph's characters. */
  function InsertAt(s: string, i: nat, c: char): (r: string)
    requires i <= |s|
    ensures |r| == |s| + 1 && r[i] == c
    ensures r[..i] == s[..i] && r[i + 1..] == s[i..]
  {
    s[..i] + [c] + s[i..]
  }

  /** The characters `s[i..j]` removed: `line[:i] + line[j:]`. */
  function DeleteRange(s: string, i: nat, j: nat): (r: string)
    requires i <= j <= |s|
    ensures |r| == |s| - (j - i)
    ensures r[..i] == s[..i] && r[i..] == s[j..]
  {
    s[..i] + s[j..]
  }

  /** Paragraph `p` split at offset `c` into two paragraphs. */
  function SplitAt(ps: seq<string>, p: nat, c: nat): (r: seq<string>)
    requires p < |ps| && c <= |ps[p]|
    ensures |r| == |ps| + 1
    ensures r[p] + r[p + 1] == ps[p] && |r[p]| == c
    ensures r[..p] == ps[..p] && r[p + 2..] == ps[p + 1..]
  {
    ps[..p] + [ps[p][..c], ps[p][c..]] + ps[p + 1..]
  }

  /** Paragraphs `p` and `p + 1` joined into one. */
  function MergeWithNext(ps: seq<string>, p: nat): (r: seq<string>)
    requires p + 1 < |ps|
    ensures |r| == |ps| - 1
    ensures r[p] == ps[p] + ps[p + 1]
    ensures r[..p] == ps[..p] && r[p + 1..] == ps[p + 2..]
  {
    ps[..p] + [ps[p] + ps[p + 1]] + ps[p + 2..]
  }

  /** Deleting the character just inserted gives the text back. */
  lemma DeleteUndoesInsert(s: string, i: nat, c: char)
    requires i <= |s|
    ensures DeleteRange(InsertAt(s, i, c), i, i + 1) == s
  {
    assert s == s[..i] + s[i..];
  }

  /** Merging the two halves of a split gives the paragraphs back. */
  lemma MergeUndoesSplit(ps: seq<string>, p: nat, c: nat)
    requires p < |ps| && c <= |ps[p]|
    ensures MergeWithNext(SplitAt(ps, p, c), p) == ps
  {
    var r := SplitAt(ps, p, c);
    assert ps == ps[..p] + [ps[p]] + ps[p + 1..];
  }

  /** Splitting a merged paragraph where its first part ended gives the
      paragraphs back. */
  lemma SplitUndoesMerge(ps: seq<string>, p: nat)
    requires p + 1 < |ps|
    ensures SplitAt(MergeWithNext(ps, p), p, |ps[p]|) == ps
  {
    var m := MergeWithNext(ps, p);
    assert m[p][..|ps[p]|] == ps[p] && m[p][|ps[p]|..] == ps[p + 1];
    assert ps == ps[..p] + [ps[p], ps[p + 1]] + ps[p + 2..];
  }

  /** A printable character inserted into a paragraph text leaves no line
      boundary that survives wrapping, and leaves a clean text clean unless
      the character is itself rewritten. */
  lemma InsertKeepsSafe(s: string, i: nat, c: char)
    requires i <= |s| && NoLineBreak(s) && Clean(s) && Printable(c)
    ensures SafeText(InsertAt(s, i, c))
    ensures !Rewritten(c) ==> Clean(InsertAt(s, i, c))
  {
    var r := InsertAt(s, i, c);
    forall k | 0 <= k < |r|
      ensures LineBreak(r[k]) ==> Rewritten(r[k])
      ensures !Rewritten(c) ==> !Rewritten(r[k])
    {
      if k < i {
        assert r[k] == s[k];
      } else if k > i {
        assert r[k] == s[k - 1];
      }
    }
  }

  /** Deleting characters keeps a paragraph text free of line boundaries
      and clean. */
  lemma DeleteKeepsClean(s: string, i: nat, j: nat)
    requires i <= j <= |s| && NoLineBreak(s) && Clean(s)
    ensures NoLineBreak(DeleteRange(s, i, j)) && Clean(DeleteRange(s, i, j))
    ensures SafeText(DeleteRange(s, i, j))
  {
    var r := DeleteRange(s, i, j);
    forall k | 0 <= k < |r|
      ensures !LineBreak(r[k]) && !Rewritten(r[k])
    {
      if k < i {
        assert r[k] == s[k];
      } else {
        assert r[k] == s[k + (j - i)];
      }
    }
  }

  /** Slices and concatenations of clean, boundary-free paragraph texts are
      clean and boundary-free. */
  lemma ConcatKeepsClean(a: string, b: string)
    requires NoLineBreak(a) && Clean(a) && NoLineBreak(b) && Clean(b)
    ensures NoLineBreak(a + b) && Clean(a + b) && SafeText(a + b)
  {
    var r := a + b;
    forall k | 0 <= k < |r|
      ensures !LineBreak(r[k]) && !Rewritten(r[k])
    {
      if k < |a| {
        assert r[k] == a[k];
      } else {
        assert r[k] == b[k - |a|];
      }
    }
  }

  /** Rewrapping paragraph `p` from its text with `s[i..j]` deleted keeps
      the buffer laid out and deletes those characters from its text. */
  lemma DeleteKeepsLayout(text: Text, winSizeX: int, p: nat, i: nat, j: nat)
    requires WellWrapped(text, winSizeX) && p < |text| && i <= j <= |Texts(text)[p]|
    ensures var ps := Texts(text);
      && WellWrapped(text[p := TextWrap(DeleteRange(ps[p], i, j), winSizeX)], winSizeX)
      && Texts(text[p := TextWrap(DeleteRange(ps[p], i, j), winSizeX)]) == ps[p := DeleteRange(ps[p], i, j)]
  {
    var ps := Texts(text);
    WrappedParagraph(text, winSizeX, p);
    DeleteKeepsClean(ps[p], i, j);
    WellWrappedUpdate(text, winSizeX, p, DeleteRange(ps[p], i, j));
  }

  /** Rewrapping paragraph `p` from its text followed by the next one's and
      then deleting the next one keeps the buffer laid out and merges the
      two texts. */
  lemma MergeKeepsLayout(text: Text, winSizeX: int, p: nat)
    requires WellWrapped(text, winSizeX) && p + 1 < |text|
    ensures var ps := Texts(text);
      var mid := text[p := TextWrap(ps[p] + ps[p + 1], winSizeX)];
      && WellWrapped(mid[..p + 1] + mid[p + 2..], winSizeX)
      && Texts(mid[..p + 1] + mid[p + 2..]) == MergeWithNext(ps, p)
  {
    var ps := Texts(text);
    WrappedParagraph(text, winSizeX, p);
    WrappedParagraph(text, winSizeX, p + 1);
    ConcatKeepsClean(ps[p], ps[p + 1]);
    WellWrappedUpdate(text, winSizeX, p, ps[p] + ps[p + 1]);
    var mid := text[p := TextWrap(ps[p] + ps[p + 1], winSizeX)];
    WellWrappedDelete(mid, winSizeX, p + 1);
    assert Texts(mid[..p + 1] + mid[p + 2..]) == Texts(mid)[..p + 1] + Texts(mid)[p + 2..];
    assert Texts(mid) == ps[p := ps[p] + ps[p + 1]];
  }

  /** Rewrapping paragraph `p` from the text before offset `c` and inserting
      a paragraph wrapped from the rest right after it keeps the buffer laid
      out and splits the text. */
  lemma SplitKeepsLayout(text: Text, winSizeX: int, p: nat, c: nat)
    requires WellWrapped(text, winSizeX) && p < |text| && c <= |Texts(text)[p]|
    ensures var ps := Texts(text);
      var mid := text[p := TextWrap(ps[p][..c], winSizeX)];
      && WellWrapped(mid[..p + 1] + [TextWrap(ps[p][c..], winSizeX)] + mid[p + 1..], winSizeX)
      && Texts(mid[..p + 1] + [TextWrap(ps[p][c..], winSizeX)] + mid[p + 1..]) == SplitAt(ps, p, c)
  {
    var ps := Texts(text);
    WrappedParagraph(text, winSizeX, p);
    var a, b := ps[p][..c], ps[p][c..];
    assert Clean(a) && SafeText(a) && Clean(b) && SafeText(b) by {
      assert a == DeleteRange(ps[p], c, |ps[p]|);
      assert b == DeleteRange(ps[p], 0, c);
      DeleteKeepsClean(ps[p], c, |ps[p]|);
      DeleteKeepsClean(ps[p], 0, c);
    }
    var mid := text[p := TextWrap(a, winSizeX)];
    var ms := ps[p := a];
    assert WellWrapped(mid, winSizeX) && Texts(mid) == ms by {
      WellWrappedUpdate(text, winSizeX, p, a);
    }
    WellWrappedInsert(mid, winSizeX, p + 1, b);
    assert ms[..p + 1] == ps[..p] + [a];
    assert ms[p + 1..] == ps[p + 1..];
    assert Texts(mid)[..p + 1] + [Normalized(b)] + Texts(mid)[p + 1..] == SplitAt(ps, p, c);
  }
}
