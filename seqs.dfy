/** Sequence combinators used to state the plan of a run. */
module Seqs {

  /** `f` applied to each element of `s`, in order. */
  function MapSeq<A, B>(f: A -> B, s: seq<A>): (r: seq<B>)
    ensures |r| == |s|
  {
    if s == [] then [] else MapSeq(f, s[..|s| - 1]) + [f(s[|s| - 1])]
  }

  lemma {:induction false} MapSeqAt<A, B>(f: A -> B, s: seq<A>, i: nat)
    requires i < |s|
    ensures MapSeq(f, s)[i] == f(s[i])
  {
    var init := s[..|s| - 1];
    if i < |s| - 1 {
      MapSeqAt(f, init, i);
      assert init[i] == s[i];
    }
  }

  lemma {:induction false} MapSeqAppend<A, B>(f: A -> B, a: seq<A>, b: seq<A>)
    ensures MapSeq(f, a + b) == MapSeq(f, a) + MapSeq(f, b)
    decreases |b|
  {
    if b == [] {
      assert a + b == a;
    } else {
      var b' := b[..|b| - 1];
      MapSeqAppend(f, a, b');
      assert (a + b)[..|a + b| - 1] == a + b';
    }
  }

  /** The sequences `f` gives for the elements of `s`, concatenated in order. */
  function FlatMap<A, B>(f: A -> seq<B>, s: seq<A>): seq<B> {
    if s == [] then [] else FlatMap(f, s[..|s| - 1]) + f(s[|s| - 1])
  }

  lemma {:induction false} FlatMapAppend<A, B>(f: A -> seq<B>, a: seq<A>, b: seq<A>)
    ensures FlatMap(f, a + b) == FlatMap(f, a) + FlatMap(f, b)
    decreases |b|
  {
    if b == [] {
      assert a + b == a;
    } else {
      var b' := b[..|b| - 1];
      FlatMapAppend(f, a, b');
      assert (a + b)[..|a + b| - 1] == a + b';
    }
  }

  /** A prefix of the input flattens to a prefix of the output. */
  lemma FlatMapPrefix<A, B>(f: A -> seq<B>, a: seq<A>, full: seq<A>)
    requires a <= full
    ensures FlatMap(f, a) <= FlatMap(f, full)
  {
    assert full == a + full[|a|..];
    FlatMapAppend(f, a, full[|a|..]);
  }

  /** Whatever `f` gives for an element is in the result. */
  lemma {:induction false} FlatMapHas<A, B>(f: A -> seq<B>, s: seq<A>, i: nat, x: B)
    requires i < |s| && x in f(s[i])
    ensures x in FlatMap(f, s)
  {
    var init := s[..|s| - 1];
    if i < |s| - 1 {
      FlatMapHas(f, init, i, x);
      assert init[i] == s[i];
    }
  }

  /** Everything in the result comes from some element. */
  lemma {:induction false} FlatMapSource<A, B>(f: A -> seq<B>, s: seq<A>, x: B) returns (i: nat)
    requires x in FlatMap(f, s)
    ensures i < |s| && x in f(s[i])
  {
    var init := s[..|s| - 1];
    if x in FlatMap(f, init) {
      i := FlatMapSource(f, init, x);
      assert init[i] == s[i];
    } else {
      i := |s| - 1;
    }
  }
}
