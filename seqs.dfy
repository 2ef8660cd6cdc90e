/** Concatenation of a sequence of sequences (List.addAll over a list of lists). */
module Seqs {

  function Concat<T>(ss: seq<seq<T>>): seq<T> {
    if ss == [] then [] else Concat(ss[..|ss| - 1]) + ss[|ss| - 1]
  }

  lemma {:induction false} ConcatAppend<T>(a: seq<seq<T>>, b: seq<seq<T>>)
    ensures Concat(a + b) == Concat(a) + Concat(b)
    decreases |b|
  {
    if b == [] {
      assert a + b == a;
    } else {
      var last := b[|b| - 1];
      assert (a + b)[..|a + b| - 1] == a + b[..|b| - 1];
      ConcatAppend(a, b[..|b| - 1]);
    }
  }

  /** An element of the concatenation comes from one of the pieces, and every element of
      every piece is kept. */
  lemma {:induction false} ConcatMembership<T>(ss: seq<seq<T>>, x: T)
    ensures x in Concat(ss) <==> exists i :: 0 <= i < |ss| && x in ss[i]
    decreases |ss|
  {
    if ss != [] {
      var init := ss[..|ss| - 1];
      ConcatMembership(init, x);
      if x in Concat(ss) && x !in ss[|ss| - 1] {
        var i :| 0 <= i < |init| && x in init[i];
        assert x in ss[i];
      }
      if exists i :: 0 <= i < |ss| && x in ss[i] {
        var i :| 0 <= i < |ss| && x in ss[i];
        if i < |ss| - 1 {
          assert x in init[i];
        }
      }
    }
  }

  /** Concatenating a prefix of the pieces gives a prefix of the whole. */
  lemma {:induction false} ConcatPrefixLength<T>(ss: seq<seq<T>>, i: nat)
    requires i <= |ss|
    ensures |Concat(ss[..i])| <= |Concat(ss)|
  {
    assert ss == ss[..i] + ss[i..];
    ConcatAppend(ss[..i], ss[i..]);
  }

  lemma ConcatSnoc<T>(ss: seq<seq<T>>, i: nat)
    requires i < |ss|
    ensures Concat(ss[..i + 1]) == Concat(ss[..i]) + ss[i]
  {
    assert ss[..i + 1][..i] == ss[..i];
  }
}
