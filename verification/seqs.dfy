/** Sequence helpers: concatenation of a sequence of sequences, a
    projection that concatenates per-element pieces, and the front-first
    chunking used to bound the number of in-flight requests. */
module Seqs {

  /** The in-order concatenation of all the sequences in `ss`. */
  function Flatten<T>(ss: seq<seq<T>>): seq<T>
    decreases |ss|
  {
    if |ss| == 0 then [] else ss[0] + Flatten(ss[1..])
  }

  lemma {:induction false} FlattenAppend<T>(a: seq<seq<T>>, b: seq<seq<T>>)
    ensures Flatten(a + b) == Flatten(a) + Flatten(b)
    decreases |a|
  {
    if |a| == 0 {
      assert a + b == b;
    } else {
      assert (a + b)[1..] == a[1..] + b;
      FlattenAppend(a[1..], b);
    }
  }

  lemma {:induction false} FlattenEmpty<T>(ss: seq<seq<T>>)
    requires forall i :: 0 <= i < |ss| ==> ss[i] == []
    ensures Flatten(ss) == []
    decreases |ss|
  {
    if |ss| > 0 {
      FlattenEmpty(ss[1..]);
    }
  }

  /** Concatenation of `f(x)` over the elements `x` of `s`, in order. */
  function FlatMap<T, U>(f: T -> seq<U>, s: seq<T>): seq<U>
    decreases |s|
  {
    if |s| == 0 then [] else f(s[0]) + FlatMap(f, s[1..])
  }

  lemma {:induction false} FlatMapAppend<T, U>(f: T -> seq<U>, a: seq<T>, b: seq<T>)
    ensures FlatMap(f, a + b) == FlatMap(f, a) + FlatMap(f, b)
    decreases |a|
  {
    if |a| == 0 {
      assert a + b == b;
    } else {
      assert (a + b)[1..] == a[1..] + b;
      FlatMapAppend(f, a[1..], b);
    }
  }

  /** Splits `s` front-first into consecutive groups of `n` elements; only
      the last group may be shorter, and no group is empty. */
  function Chunks<T>(s: seq<T>, n: nat): (groups: seq<seq<T>>)
    requires n > 0
    ensures Flatten(groups) == s
    ensures forall i :: 0 <= i < |groups| ==> 0 < |groups[i]| <= n
    ensures forall i :: 0 <= i < |groups| - 1 ==> |groups[i]| == n
    ensures |s| == 0 <==> |groups| == 0
    decreases |s|
  {
    if |s| == 0 then []
    else if |s| <= n then [s]
    else
      var rest := Chunks(s[n..], n);
      var groups := [s[..n]] + rest;
      assert groups[1..] == rest;
      assert s[..n] + s[n..] == s;
      groups
  }
}
