/**
 The two Python `list` methods the command handlers use: `index`, which
 finds the first element equal to a value, and `remove`, which deletes it.
 */
module Lists {

  /** The position of the first occurrence of `x`. */
  function IndexOf<T(==)>(xs: seq<T>, x: T): (i: nat)
    requires x in xs
    ensures i < |xs| && xs[i] == x
    ensures forall j :: 0 <= j < i ==> xs[j] != x
  {
    if xs[0] == x then 0 else 1 + IndexOf(xs[1..], x)
  }

  /** Appending an element does not move the first occurrence of a value
      already present. */
  lemma IndexOfAppend<T>(init: seq<T>, x: T, y: T)
    requires y in init
    ensures IndexOf(init + [x], y) == IndexOf(init, y)
  {
    var i := IndexOf(init, y);
    assert (init + [x])[i] == y;
    assert forall j :: 0 <= j < i ==> (init + [x])[j] == init[j];
  }

  /** A value that first appears at the end is found there. */
  lemma IndexOfLast<T>(init: seq<T>, x: T)
    requires x !in init
    ensures IndexOf(init + [x], x) == |init|
  {
    assert (init + [x])[|init|] == x;
    assert forall j :: 0 <= j < |init| ==> (init + [x])[j] == init[j];
  }

  /** `list.remove(x)`: drop the first occurrence of `x`. */
  function RemoveFirst<T(==)>(xs: seq<T>, x: T): (r: seq<T>)
    requires x in xs
    ensures r == xs[..IndexOf(xs, x)] + xs[IndexOf(xs, x) + 1..]
  {
    if xs[0] == x then
      assert xs[..0] == [];
      xs[1..]
    else
      var tail := xs[1..];
      PrependSlices(xs[0], tail, IndexOf(tail, x));
      assert xs == [xs[0]] + tail;
      [xs[0]] + RemoveFirst(tail, x)
  }

  /** Cutting element `i` out of a tail and then putting the head back cuts
      element `i + 1` out of the whole. */
  lemma PrependSlices<T>(h: T, tail: seq<T>, i: nat)
    requires i < |tail|
    ensures [h] + (tail[..i] + tail[i + 1..]) == ([h] + tail)[..i + 1] + ([h] + tail)[i + 2..]
  {
    var xs := [h] + tail;
    assert xs[..i + 1] == [h] + tail[..i];
    assert xs[i + 2..] == tail[i + 1..];
  }

  /** Removing the first occurrence takes exactly one copy of `x` out of the
      list's contents. */
  lemma RemoveFirstContents<T>(xs: seq<T>, x: T)
    requires x in xs
    ensures multiset(RemoveFirst(xs, x)) == multiset(xs) - multiset{x}
  {
    var i := IndexOf(xs, x);
    assert xs == xs[..i] + [x] + xs[i + 1..];
    assert multiset(xs) == multiset(xs[..i]) + multiset{x} + multiset(xs[i + 1..]);
  }

  /** Concatenation is associative. */
  lemma ConcatAssoc<T>(x: seq<T>, y: seq<T>, z: seq<T>)
    ensures (x + y) + z == x + (y + z)
  {
  }
}
