/** The JavaScript array operations the tag toggle relies on:
    `a.indexOf(x)` and `a.splice(i, 1)`, over immutable sequences. */
module Arrays {

  /** `a.indexOf(x)`: the position of the first element equal to `x`, or -1. */
  function IndexOf<T(==)>(a: seq<T>, x: T): (r: int)
    ensures -1 <= r < |a|
    ensures r == -1 <==> x !in a
    ensures r != -1 ==> a[r] == x && x !in a[..r]
  {
    if |a| == 0 then -1
    else if a[0] == x then 0
    else
      var j := IndexOf(a[1..], x);
      if j == -1 then -1
      else
        assert a[..j + 1] == [a[0]] + a[1..][..j];
        j + 1
  }

  /** `a.splice(i, 1)`: the array with its element at position `i` deleted. */
  function Splice<T>(a: seq<T>, i: nat): (r: seq<T>)
    requires i < |a|
    ensures |r| == |a| - 1
    ensures forall j :: 0 <= j < i ==> r[j] == a[j]
    ensures forall j :: i <= j < |r| ==> r[j] == a[j + 1]
    ensures multiset(r) == multiset(a) - multiset{a[i]}
  {
    assert a == a[..i] + [a[i]] + a[i + 1..];
    a[..i] + a[i + 1..]
  }

  /** How many elements of `a` equal `x`. */
  function Count<T(==)>(a: seq<T>, x: T): nat {
    multiset(a)[x]
  }
}
