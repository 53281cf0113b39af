/** The pieces of Python's `list` that the managers use on lists of objects. */
module Lists {

  /** No object is in the list twice. */
  predicate Distinct<T(==)>(s: seq<T>) {
    forall i, j | 0 <= i < j < |s| :: s[i] != s[j]
  }

  /** Position of the first occurrence of `x` (`list.index`). */
  function IndexOf<T(==)>(s: seq<T>, x: T): (i: nat)
    requires x in s
    ensures i < |s| && s[i] == x && x !in s[..i]
  {
    if s[0] == x then 0
    else
      var j := IndexOf(s[1..], x);
      assert s[..j + 1] == [s[0]] + s[1..][..j];
      j + 1
  }

  /** `a` is `b` with some elements left out, the others in their order. */
  predicate IsSubsequence<T(==)>(a: seq<T>, b: seq<T>)
    decreases |b|
  {
    a == [] || (b != [] && if a[0] == b[0] then IsSubsequence(a[1..], b[1..]) else IsSubsequence(a, b[1..]))
  }

  /** `list.remove(x)`: drops the first occurrence of `x`. */
  function RemoveFirst<T(==)>(s: seq<T>, x: T): seq<T>
    requires x in s
  {
    var i := IndexOf(s, x);
    s[..i] + s[i + 1..]
  }

  /** In a list without repetitions, removal drops exactly `x` and keeps the others in order. */
  lemma RemoveDistinct<T>(s: seq<T>, x: T)
    requires Distinct(s) && x in s
    ensures var r := RemoveFirst(s, x);
      && |r| == |s| - 1
      && Distinct(r)
      && (forall y :: y in r <==> y in s && y != x)
      && exists i | 0 <= i < |s| :: s[i] == x && r == s[..i] + s[i + 1..]
  {
    var i := IndexOf(s, x);
    var r := RemoveFirst(s, x);
    assert forall k | 0 <= k < |r| :: r[k] == (if k < i then s[k] else s[k + 1]);
  }
}
