/**
 Byte sequences and the two relations on them that the rest of the model is
 stated in: concatenation of a sequence of chunks, and "is a (not necessarily
 contiguous) subsequence of".
 */
module Bytes {

  /** One octet, as `uint8_t` in the example program. */
  type Byte = bv8

  /** The bytes of `chunks`, one chunk after the other, in order. */
  function Flatten(chunks: seq<seq<Byte>>): seq<Byte> {
    if chunks == [] then [] else chunks[0] + Flatten(chunks[1..])
  }

  /** Concatenation distributes over appending chunk lists. */
  lemma {:induction false} FlattenAppend(a: seq<seq<Byte>>, b: seq<seq<Byte>>)
    ensures Flatten(a + b) == Flatten(a) + Flatten(b)
    decreases |a|
  {
    if a == [] {
      assert a + b == b;
    } else {
      assert (a + b)[1..] == a[1..] + b;
      FlattenAppend(a[1..], b);
    }
  }

  /** The flattening of a prefix of the chunk list is a prefix of the flattening. */
  lemma FlattenPrefix(chunks: seq<seq<Byte>>, i: nat, j: nat)
    requires i <= j <= |chunks|
    ensures Flatten(chunks[..i]) <= Flatten(chunks[..j])
  {
    assert chunks[..j] == chunks[..i] + chunks[i..j];
    FlattenAppend(chunks[..i], chunks[i..j]);
  }

  /**
   `a` can be obtained from `b` by deleting zero or more bytes, keeping the
   remaining ones in their order.
   */
  predicate IsSubsequence(a: seq<Byte>, b: seq<Byte>)
    decreases |b|
  {
    || |a| == 0
    || (&& |b| > 0
        && ((a[0] == b[0] && IsSubsequence(a[1..], b[1..])) || IsSubsequence(a, b[1..])))
  }

  /** Deleting nothing: every sequence is a subsequence of itself. */
  lemma {:induction false} SubsequenceReflexive(a: seq<Byte>)
    ensures IsSubsequence(a, a)
    decreases |a|
  {
    if |a| > 0 {
      SubsequenceReflexive(a[1..]);
    }
  }

  /** A common prefix may be put in front of both sides. */
  lemma {:induction false} SubsequencePrependBoth(p: seq<Byte>, a: seq<Byte>, b: seq<Byte>)
    requires IsSubsequence(a, b)
    ensures IsSubsequence(p + a, p + b)
    decreases |p|
  {
    if |p| == 0 {
      assert p + a == a && p + b == b;
    } else {
      SubsequencePrependBoth(p[1..], a, b);
      assert (p + a)[0] == (p + b)[0];
      assert (p + a)[1..] == p[1..] + a;
      assert (p + b)[1..] == p[1..] + b;
    }
  }

  /** Bytes put in front of the larger side only are deleted bytes. */
  lemma {:induction false} SubsequencePrependRight(p: seq<Byte>, a: seq<Byte>, b: seq<Byte>)
    requires IsSubsequence(a, b)
    ensures IsSubsequence(a, p + b)
    decreases |p|
  {
    if |p| == 0 {
      assert p + b == b;
    } else {
      SubsequencePrependRight(p[1..], a, b);
      assert (p + b)[1..] == p[1..] + b;
    }
  }
}
