/** Order-preserving list operations shared by the screens and the store:
    keeping the elements that satisfy a test (a for-each loop that adds to
    a fresh list) and removing the first element that satisfies one (an
    iterator that removes and breaks). */
module Seqs {

  /** The elements of `xs` that satisfy `p`, in their original order. */
  function Filter<T>(xs: seq<T>, p: T -> bool): (r: seq<T>)
    ensures |r| <= |xs|
    ensures forall i :: 0 <= i < |r| ==> r[i] in xs && p(r[i])
    ensures forall i :: 0 <= i < |xs| && p(xs[i]) ==> xs[i] in r
  {
    if |xs| == 0 then []
    else (if p(xs[0]) then [xs[0]] else []) + Filter(xs[1..], p)
  }

  /** Concatenation is associative. */
  lemma ConcatAssoc<T>(x: seq<T>, y: seq<T>, z: seq<T>)
    ensures x + (y + z) == (x + y) + z
  {
  }

  /** Filtering commutes with concatenation: relative order is kept. */
  lemma {:induction false} FilterConcat<T>(a: seq<T>, b: seq<T>, p: T -> bool)
    ensures Filter(a + b, p) == Filter(a, p) + Filter(b, p)
    decreases |a|
  {
    if |a| == 0 {
      assert a + b == b;
    } else {
      assert (a + b)[0] == a[0];
      assert (a + b)[1..] == a[1..] + b;
      FilterConcat(a[1..], b, p);
      ConcatAssoc(if p(a[0]) then [a[0]] else [], Filter(a[1..], p), Filter(b, p));
    }
  }

  /** Filtering one more element at the end: it is kept exactly when it
      passes. */
  lemma FilterSnoc<T>(xs: seq<T>, x: T, p: T -> bool)
    ensures Filter(xs + [x], p) == Filter(xs, p) + (if p(x) then [x] else [])
  {
    FilterConcat(xs, [x], p);
    assert [x][1..] == [];
  }

  /** The for-each loop that adds every passing element to a fresh list. */
  method FilterLoop<T>(xs: seq<T>, p: T -> bool) returns (r: seq<T>)
    ensures r == Filter(xs, p)
  {
    r := [];
    var i := 0;
    while i < |xs|
      invariant 0 <= i <= |xs|
      invariant r == Filter(xs[..i], p)
    {
      FilterSnoc(xs[..i], xs[i], p);
      assert xs[..i + 1] == xs[..i] + [xs[i]];
      if p(xs[i]) {
        r := r + [xs[i]];
      }
      i := i + 1;
    }
    assert xs[..|xs|] == xs;
  }

  /** A filter returns its whole input exactly when every element passes. */
  lemma {:induction false} FilterKeepsAll<T>(xs: seq<T>, p: T -> bool)
    ensures Filter(xs, p) == xs <==> forall i :: 0 <= i < |xs| ==> p(xs[i])
    decreases |xs|
  {
    if |xs| > 0 {
      FilterKeepsAll(xs[1..], p);
      if !p(xs[0]) {
        assert |Filter(xs, p)| < |xs|;
      }
      assert forall i :: 1 <= i < |xs| ==> xs[i] == xs[1..][i - 1];
    }
  }

  /** `i` is the index of the first element satisfying `p`. */
  predicate FirstWhere<T>(xs: seq<T>, p: T -> bool, i: int)
  {
    0 <= i < |xs| && p(xs[i]) && forall j :: 0 <= j < i ==> !p(xs[j])
  }

  /** Index of the first element satisfying `p`, or |xs| when none does. */
  function FirstIndex<T>(xs: seq<T>, p: T -> bool): (k: nat)
    ensures k <= |xs|
    ensures forall j :: 0 <= j < k ==> !p(xs[j])
    ensures k < |xs| ==> p(xs[k])
  {
    if |xs| == 0 then 0
    else if p(xs[0]) then 0
    else 1 + FirstIndex(xs[1..], p)
  }

  /** The list with its first element satisfying `p` removed, if any. */
  function RemoveFirstWhere<T>(xs: seq<T>, p: T -> bool): (r: seq<T>)
    ensures (forall i :: 0 <= i < |xs| ==> !p(xs[i])) ==> r == xs
    ensures forall i :: FirstWhere(xs, p, i) ==> r == xs[..i] + xs[i + 1..]
  {
    if |xs| == 0 then []
    else if p(xs[0]) then
      assert forall i :: FirstWhere(xs, p, i) ==> i == 0;
      xs[1..]
    else
      var rest := RemoveFirstWhere(xs[1..], p);
      assert forall i :: FirstWhere(xs, p, i) ==> [xs[0]] + rest == xs[..i] + xs[i + 1..] by {
        forall i | FirstWhere(xs, p, i)
          ensures [xs[0]] + rest == xs[..i] + xs[i + 1..]
        {
          assert FirstWhere(xs[1..], p, i - 1);
          assert xs[1..][..i - 1] == xs[1..i];
          assert xs[1..][i..] == xs[i + 1..];
          assert xs[..i] == [xs[0]] + xs[1..i];
        }
      }
      [xs[0]] + rest
  }

  /** Moving the head of `xs` onto the end of `a` leaves the whole unchanged. */
  lemma ShiftHead<T>(a: seq<T>, xs: seq<T>)
    requires xs != []
    ensures (a + [xs[0]]) + xs[1..] == a + xs
  {
    assert xs == [xs[0]] + xs[1..];
  }

  /** Dropping the head of a concatenation whose first part is non-empty. */
  lemma DropHeadOfConcat<T>(a: seq<T>, b: seq<T>)
    requires a != []
    ensures (a + b)[1..] == a[1..] + b
  {
  }

  /** When some element satisfies `p`, exactly one element is removed. */
  lemma {:induction false} RemoveFirstWhereLength<T>(xs: seq<T>, p: T -> bool, j: int)
    requires 0 <= j < |xs| && p(xs[j])
    ensures |RemoveFirstWhere(xs, p)| == |xs| - 1
    decreases |xs|
  {
    if !p(xs[0]) {
      assert xs[1..][j - 1] == xs[j];
      RemoveFirstWhereLength(xs[1..], p, j - 1);
    }
  }
}
