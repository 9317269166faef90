/** Element-wise mapping of a sequence, the list comprehension `[f(e) for e in es]`. */
module Seqs {

  function Project<T, U>(es: seq<T>, f: T -> U): (r: seq<U>)
    ensures |r| == |es|
    ensures forall i | 0 <= i < |es| :: r[i] == f(es[i])
  {
    if es == [] then [] else Project(es[..|es| - 1], f) + [f(es[|es| - 1])]
  }

  lemma ProjectSnoc<T, U>(es: seq<T>, x: T, f: T -> U)
    ensures Project(es + [x], f) == Project(es, f) + [f(x)]
  {
    assert (es + [x])[..|es|] == es;
  }

  /** Extending a prefix by one element. */
  lemma TakeSnoc<T>(s: seq<T>, i: nat)
    requires i < |s|
    ensures s[..i + 1] == s[..i] + [s[i]]
  {
  }
}
