/** `StreamZipper.zip`: pairs two lists index by index with a combining
    function, as far as the shorter list goes. */
module StreamZipper {

  /** `limit`: how many items the zipped stream has. */
  function Limit<A, B>(a: seq<A>, b: seq<B>): (n: nat)
    ensures n <= |a| && n <= |b|
    ensures n == |a| || n == |b|
  {
    if |a| <= |b| then |a| else |b|
  }

  /** `zip`: the range `[0, Limit(a, b))` mapped by `tuple`, which applies
      `zipper` to the items of both lists at that index. */
  function Zip<A, B, C>(a: seq<A>, b: seq<B>, zipper: (A, B) -> C): (r: seq<C>)
    ensures |r| <= |a| && |r| <= |b|
    ensures |r| == |a| || |r| == |b|
    ensures forall i :: 0 <= i < |r| ==> r[i] == zipper(a[i], b[i])
  {
    var n := Limit(a, b);
    seq(n, i requires 0 <= i < n => zipper(a[i], b[i]))
  }

  /** The first or second components of every pair of a sequence. */
  function Firsts<A, B>(ps: seq<(A, B)>): (r: seq<A>)
    ensures |r| == |ps| && forall i :: 0 <= i < |ps| ==> r[i] == ps[i].0
  {
    seq(|ps|, i requires 0 <= i < |ps| => ps[i].0)
  }

  function Seconds<A, B>(ps: seq<(A, B)>): (r: seq<B>)
    ensures |r| == |ps| && forall i :: 0 <= i < |ps| ==> r[i] == ps[i].1
  {
    seq(|ps|, i requires 0 <= i < |ps| => ps[i].1)
  }

  /** Zipping with the pairing function and projecting gives the prefixes of
      both inputs as long as the result. */
  lemma ZipPairsProject<A, B>(a: seq<A>, b: seq<B>)
    ensures var z := Zip(a, b, (x: A, y: B) => (x, y));
      Firsts(z) == a[..|z|] && Seconds(z) == b[..|z|]
  {
    var z := Zip(a, b, (x: A, y: B) => (x, y));
    assert forall i :: 0 <= i < |z| ==> z[i] == (a[i], b[i]);
  }

  /** Lists of equal length are consumed whole, each item once and in order. */
  lemma ZipEqualLengths<A, B>(a: seq<A>, b: seq<B>)
    requires |a| == |b|
    ensures var z := Zip(a, b, (x: A, y: B) => (x, y));
      Firsts(z) == a && Seconds(z) == b
  {
    ZipPairsProject(a, b);
    assert a[..|a|] == a && b[..|b|] == b;
  }

  /** An empty list on either side gives an empty result. */
  lemma ZipEmpty<A, B, C>(a: seq<A>, b: seq<B>, zipper: (A, B) -> C)
    requires a == [] || b == []
    ensures Zip(a, b, zipper) == []
  {
  }

  /** Zipping the other way round with the arguments swapped gives the same. */
  lemma ZipSwap<A, B, C>(a: seq<A>, b: seq<B>, zipper: (A, B) -> C)
    ensures Zip(b, a, (y: B, x: A) => zipper(x, y)) == Zip(a, b, zipper)
  {
  }
}
