/**
 * Concatenation of a sequence of byte blocks: the raw image is the concatenation of its scanlines,
 * and a run of IDAT chunks carries the concatenation of their payloads.
 */
module Seqs {
  import opened Arith

  function Flatten<T>(parts: seq<seq<T>>): seq<T>
  {
    if parts == [] then [] else Flatten(parts[..|parts| - 1]) + parts[|parts| - 1]
  }

  lemma ConcatAssoc<T>(a: seq<T>, b: seq<T>, c: seq<T>)
    ensures a + (b + c) == (a + b) + c
  {
  }

  /** Appending one block to the list appends its elements to the concatenation. */
  lemma FlattenSnoc<T>(parts: seq<seq<T>>, last: seq<T>)
    ensures Flatten(parts + [last]) == Flatten(parts) + last
  {
    assert (parts + [last])[..|parts|] == parts;
  }

  /** n blocks of equal length m concatenate to n*m elements. */
  lemma {:induction false} FlattenUniform<T>(parts: seq<seq<T>>, m: nat)
    requires forall i :: 0 <= i < |parts| ==> |parts[i]| == m
    ensures |Flatten(parts)| == |parts| * m
  {
    if parts != [] {
      FlattenUniform(parts[..|parts| - 1], m);
      MulSucc(|parts| - 1, m);
    }
  }

  /** With blocks of equal length m, block y sits at elements y*m .. y*m+m of the concatenation. */
  lemma {:induction false} FlattenAt<T>(parts: seq<seq<T>>, m: nat, y: nat)
    requires forall i :: 0 <= i < |parts| ==> |parts[i]| == m
    requires y < |parts|
    ensures |Flatten(parts)| == |parts| * m
    ensures y * m + m <= |Flatten(parts)|
    ensures Flatten(parts)[y * m .. y * m + m] == parts[y]
  {
    FlattenUniform(parts, m);
    var init := parts[..|parts| - 1];
    FlattenUniform(init, m);
    MulSucc(y, m);
    MulLe(y + 1, |parts|, m);
    if y < |init| {
      FlattenAt(init, m, y);
      MulLe(y + 1, |init|, m);
    }
  }
}
