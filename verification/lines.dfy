/** Sequences of sequences: the `"".join(...)` and `"\n".join(...)` of the
    editor, and prefix sums of lengths (`sum(map(len, xs[:k]))`). */
module Lines {

  /** Concatenation of all inner sequences, in order: `"".join(lines)` for a
      paragraph, and the flattened row list `[j for i in text for j in i]`
      for a whole buffer. */
  function Flatten<T>(xss: seq<seq<T>>): (r: seq<T>)
  {
    if xss == [] then [] else xss[0] + Flatten(xss[1..])
  }

  /** Number of elements in the first `k` inner sequences. */
  function LengthBefore<T>(xss: seq<seq<T>>, k: nat): nat
    requires k <= |xss|
  {
    |Flatten(xss[..k])|
  }

  /** `sep.join(xss)` for a single separator element: the inner sequences
      in order with one separator between each two of them. */
  function Join<T>(sep: T, xss: seq<seq<T>>): (r: seq<T>)
    ensures |xss| >= 1 ==> |r| == |Flatten(xss)| + |xss| - 1
  {
    if |xss| == 0 then []
    else if |xss| == 1 then xss[0]
    else xss[0] + [sep] + Join(sep, xss[1..])
  }

  /** Joining at least one piece adds the separator exactly once between
      each two pieces. */
  lemma {:induction false} JoinSeparators<T>(sep: T, xss: seq<seq<T>>)
    requires |xss| >= 1
    ensures multiset(Join(sep, xss))[sep] == multiset(Flatten(xss))[sep] + |xss| - 1
    decreases |xss|
  {
    if |xss| > 1 {
      JoinSeparators(sep, xss[1..]);
    }
  }

  lemma {:induction false} FlattenAppend<T>(a: seq<seq<T>>, b: seq<seq<T>>)
    ensures Flatten(a + b) == Flatten(a) + Flatten(b)
  {
    if a == [] {
      assert a + b == b;
    } else {
      assert (a + b)[1..] == a[1..] + b;
      FlattenAppend(a[1..], b);
    }
  }

  /** Flattening one more inner sequence adds exactly its elements. */
  lemma LengthBeforeStep<T>(xss: seq<seq<T>>, k: nat)
    requires k < |xss|
    ensures Flatten(xss[..k + 1]) == Flatten(xss[..k]) + xss[k]
    ensures LengthBefore(xss, k + 1) == LengthBefore(xss, k) + |xss[k]|
  {
    assert xss[..k + 1] == xss[..k] + [xss[k]];
    FlattenAppend(xss[..k], [xss[k]]);
    assert Flatten([xss[k]]) == xss[k] + Flatten([]);
  }

  /** Counting from the second inner sequence on: the first one's length is
      added. */
  lemma LengthBeforeCons<T>(xss: seq<seq<T>>, k: nat)
    requires 1 <= k + 1 <= |xss|
    ensures LengthBefore(xss, k + 1) == |xss[0]| + LengthBefore(xss[1..], k)
  {
    assert xss[..k + 1][1..] == xss[1..][..k];
  }

  /** The flattened sequence is the prefix, the `k`-th inner sequence and the
      suffix, in that order. */
  lemma FlattenSplit<T>(xss: seq<seq<T>>, k: nat)
    requires k < |xss|
    ensures Flatten(xss) == Flatten(xss[..k]) + xss[k] + Flatten(xss[k + 1..])
  {
    assert xss == xss[..k + 1] + xss[k + 1..];
    FlattenAppend(xss[..k + 1], xss[k + 1..]);
    LengthBeforeStep(xss, k);
  }

  /** Element `j` of inner sequence `k` sits at offset `LengthBefore(xss, k) + j`
      of the flattened sequence, and the whole inner sequence is the slice
      starting there. */
  lemma FlattenSlice<T>(xss: seq<seq<T>>, k: nat)
    requires k < |xss|
    ensures LengthBefore(xss, k) + |xss[k]| <= |Flatten(xss)|
    ensures Flatten(xss)[LengthBefore(xss, k)..LengthBefore(xss, k) + |xss[k]|] == xss[k]
    ensures forall j :: 0 <= j < |xss[k]| ==> Flatten(xss)[LengthBefore(xss, k) + j] == xss[k][j]
  {
    FlattenSplit(xss, k);
  }

  /** The flattened sequence is empty exactly when every inner sequence
      is. */
  lemma {:induction false} FlattenEmpty<T>(xss: seq<seq<T>>)
    ensures (Flatten(xss) == []) == (forall k :: 0 <= k < |xss| ==> xss[k] == [])
  {
    if xss != [] {
      FlattenEmpty(xss[1..]);
      assert forall k :: 1 <= k < |xss| ==> xss[k] == xss[1..][k - 1];
    }
  }

  /** Every non-empty inner sequence contributes at least one element. */
  lemma {:induction false} FlattenCountsNonEmpty<T>(xss: seq<seq<T>>)
    requires forall k :: 0 <= k < |xss| ==> xss[k] != []
    ensures |Flatten(xss)| >= |xss|
  {
    if xss != [] {
      FlattenCountsNonEmpty(xss[1..]);
    }
  }
}
