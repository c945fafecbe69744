/** String ordering and the stable list sort the language screen relies
    on. `CompareTo` is String.compareTo: the difference of the first
    differing characters, or of the lengths when one string is a prefix of
    the other. Case-insensitive order walks the strings character by
    character as CASE_INSENSITIVE_ORDER does; that it equals natural order
    on the lower-cased strings is proved (`IgnoreCaseOrder`). The
    sort is a stable insertion sort, as List.sort is stable. */
module Ordering {
  import opened JavaText

  /** String.compareTo. */
  function CompareTo(a: string, b: string): (r: int)
    ensures r == 0 <==> a == b
    decreases |a|
  {
    if a == [] || b == [] then |a| - |b|
    else if a[0] != b[0] then a[0] as int - b[0] as int
    else
      var r := CompareTo(a[1..], b[1..]);
      assert a == [a[0]] + a[1..] && b == [b[0]] + b[1..];
      r
  }

  /** Swapping the arguments negates the comparison. */
  lemma {:induction false} CompareToAntisym(a: string, b: string)
    ensures CompareTo(a, b) == -CompareTo(b, a)
    decreases |a|
  {
    if a != [] && b != [] && a[0] == b[0] {
      CompareToAntisym(a[1..], b[1..]);
    }
  }

  /** `a` sorts no later than `b` in natural String order. */
  predicate LexLe(a: string, b: string)
  {
    CompareTo(a, b) <= 0
  }

  lemma LexLeTotal(a: string, b: string)
    ensures LexLe(a, b) || LexLe(b, a)
  {
    CompareToAntisym(a, b);
  }

  lemma {:induction false} LexLeTrans(a: string, b: string, c: string)
    requires LexLe(a, b) && LexLe(b, c)
    ensures LexLe(a, c)
    decreases |a|
  {
    if a != [] && b != [] && c != [] && a[0] == b[0] && b[0] == c[0] {
      LexLeTrans(a[1..], b[1..], c[1..]);
    }
  }

  /** String.CASE_INSENSITIVE_ORDER, with ASCII case folding: walk both
      strings; at two different characters compare them upper-cased, and
      if those still differ, compare the lower-cased upper-case forms and
      return their difference; past the shorter string return the length
      difference. */
  function CompareIgnoreCase(a: string, b: string): (r: int)
    ensures r == 0 <==> ToLower(a) == ToLower(b)
    decreases |a|
  {
    if a == [] || b == [] then
      assert |ToLower(a)| - |ToLower(b)| == |a| - |b|;
      |a| - |b|
    else
      var c1 := a[0];
      var c2 := b[0];
      LowerCons(a);
      LowerCons(b);
      if c1 != c2 && UpperChar(c1) != UpperChar(c2)
         && LowerChar(UpperChar(c1)) != LowerChar(UpperChar(c2)) then
        assert ToLower(a)[0] != ToLower(b)[0];
        LowerChar(UpperChar(c1)) as int - LowerChar(UpperChar(c2)) as int
      else
        assert LowerChar(c1) == LowerChar(c2);
        CompareIgnoreCase(a[1..], b[1..])
  }

  /** Lower-casing a non-empty string folds its head and then its tail. */
  lemma LowerCons(s: string)
    requires s != []
    ensures ToLower(s) == [LowerChar(s[0])] + ToLower(s[1..])
  {
    assert forall i :: 1 <= i < |s| ==> ToLower(s)[i] == ToLower(s[1..])[i - 1];
  }

  /** CASE_INSENSITIVE_ORDER is natural order on the lower-cased strings,
      so ordering by the lower-cased key is ordering by it. */
  lemma {:induction false} IgnoreCaseOrder(a: string, b: string)
    ensures CompareIgnoreCase(a, b) == CompareTo(ToLower(a), ToLower(b))
    ensures LeBy(a, b, ToLower) <==> CompareIgnoreCase(a, b) <= 0
    decreases |a|
  {
    if a != [] && b != [] {
      LowerCons(a);
      LowerCons(b);
      var la := ToLower(a);
      var lb := ToLower(b);
      assert la[1..] == ToLower(a[1..]) && lb[1..] == ToLower(b[1..]);
      IgnoreCaseOrder(a[1..], b[1..]);
    }
  }

  // ---------------------------------------------------------------------
  // Sorting by a key

  /** `a` sorts no later than `b` when compared through `key`. */
  predicate LeBy(a: string, b: string, key: string -> string)
  {
    LexLe(key(a), key(b))
  }

  predicate SortedBy(xs: seq<string>, key: string -> string)
  {
    forall i, j :: 0 <= i < j < |xs| ==> LeBy(xs[i], xs[j], key)
  }

  /** No two elements share a key. */
  predicate DistinctBy(xs: seq<string>, key: string -> string)
  {
    forall i, j :: 0 <= i < j < |xs| ==> key(xs[i]) != key(xs[j])
  }

  /** The keys of the elements. */
  function KeySet(xs: seq<string>, key: string -> string): set<string>
  {
    set i | 0 <= i < |xs| :: key(xs[i])
  }

  /** `x` placed into `xs` at index `i`. */
  function InsertAt(xs: seq<string>, i: nat, x: string): (r: seq<string>)
    requires i <= |xs|
    ensures |r| == |xs| + 1 && r[i] == x
    ensures forall j :: 0 <= j < i ==> r[j] == xs[j]
    ensures forall j :: i < j < |r| ==> r[j] == xs[j - 1]
  {
    xs[..i] + [x] + xs[i..]
  }

  /** Where stable insertion puts `x`: before the first element whose key
      is strictly greater, so after every element with an equal key. */
  function InsertPos(xs: seq<string>, x: string, key: string -> string): (i: nat)
    ensures i <= |xs|
    ensures forall j :: 0 <= j < i ==> LeBy(xs[j], x, key)
    ensures i < |xs| ==> !LeBy(xs[i], x, key)
  {
    if xs == [] || !LeBy(xs[0], x, key) then 0
    else 1 + InsertPos(xs[1..], x, key)
  }

  function Insert(xs: seq<string>, x: string, key: string -> string): seq<string>
  {
    InsertAt(xs, InsertPos(xs, x, key), x)
  }

  /** Insertion keeps a sorted list sorted. */
  lemma InsertSorted(xs: seq<string>, x: string, key: string -> string)
    requires SortedBy(xs, key)
    ensures SortedBy(Insert(xs, x, key), key)
  {
    var i := InsertPos(xs, x, key);
    var r := InsertAt(xs, i, x);
    forall a, b | 0 <= a < b < |r|
      ensures LeBy(r[a], r[b], key)
    {
      if b < i {
        assert r[a] == xs[a] && r[b] == xs[b];
      } else if b == i {
        assert r[a] == xs[a];
      } else if a > i {
        assert r[a] == xs[a - 1] && r[b] == xs[b - 1];
      } else if a == i {
        assert r[b] == xs[b - 1];
        LexLeTotal(key(xs[i]), key(x));
        if b - 1 > i {
          LexLeTrans(key(x), key(xs[i]), key(xs[b - 1]));
        }
      } else {
        assert r[a] == xs[a] && r[b] == xs[b - 1];
      }
    }
  }

  /** SortBy: each element in turn inserted into the sorted prefix. The
      result is a permutation of the input, ordered by the key. */
  function SortBy(xs: seq<string>, key: string -> string): (r: seq<string>)
    ensures |r| == |xs|
    ensures multiset(r) == multiset(xs)
    ensures SortedBy(r, key)
    decreases |xs|
  {
    if xs == [] then []
    else
      var s := SortBy(xs[..|xs| - 1], key);
      var last := xs[|xs| - 1];
      InsertSorted(s, last, key);
      InsertAtMultiset(s, InsertPos(s, last, key), last);
      SnocMultiset(xs);
      Insert(s, last, key)
  }

  lemma InsertAtMultiset(xs: seq<string>, i: nat, x: string)
    requires i <= |xs|
    ensures multiset(InsertAt(xs, i, x)) == multiset(xs) + multiset{x}
  {
    assert xs == xs[..i] + xs[i..];
  }

  lemma SnocMultiset(xs: seq<string>)
    requires xs != []
    ensures multiset(xs) == multiset(xs[..|xs| - 1]) + multiset{xs[|xs| - 1]}
  {
    assert xs == xs[..|xs| - 1] + [xs[|xs| - 1]];
  }

  /** Permutations have the same keys. */
  lemma PermutationKeys(a: seq<string>, b: seq<string>, key: string -> string)
    requires multiset(a) == multiset(b)
    ensures KeySet(a, key) == KeySet(b, key)
  {
    forall k | k in KeySet(a, key)
      ensures k in KeySet(b, key)
    {
      var j :| 0 <= j < |a| && k == key(a[j]);
      assert a[j] in multiset(b);
      var m :| 0 <= m < |b| && b[m] == a[j];
    }
    forall k | k in KeySet(b, key)
      ensures k in KeySet(a, key)
    {
      var j :| 0 <= j < |b| && k == key(b[j]);
      assert b[j] in multiset(a);
      var m :| 0 <= m < |a| && a[m] == b[j];
    }
  }

  /** Inserting an element whose key is new keeps the keys distinct. */
  lemma InsertAtDistinct(xs: seq<string>, i: nat, x: string, key: string -> string)
    requires i <= |xs| && DistinctBy(xs, key) && key(x) !in KeySet(xs, key)
    ensures DistinctBy(InsertAt(xs, i, x), key)
  {
    var r := InsertAt(xs, i, x);
    forall a, b | 0 <= a < b < |r|
      ensures key(r[a]) != key(r[b])
    {
      var a' := if a < i then a else a - 1;
      var b' := if b < i then b else b - 1;
      if a != i && b != i {
        assert r[a] == xs[a'] && r[b] == xs[b'];
      } else if a == i {
        assert r[b] == xs[b'];
      } else {
        assert r[a] == xs[a'];
      }
    }
  }

  /** Sorting, by any key, keeps distinct keys distinct. */
  lemma {:induction false} SortByDistinct(xs: seq<string>, key: string -> string, dkey: string -> string)
    requires DistinctBy(xs, dkey)
    ensures DistinctBy(SortBy(xs, key), dkey)
    decreases |xs|
  {
    if xs != [] {
      var init := xs[..|xs| - 1];
      var last := xs[|xs| - 1];
      assert DistinctBy(init, dkey);
      SortByDistinct(init, key, dkey);
      var s := SortBy(init, key);
      PermutationKeys(s, init, dkey);
      forall j | 0 <= j < |init|
        ensures dkey(init[j]) != dkey(last)
      {
        assert init[j] == xs[j];
      }
      var i := InsertPos(s, last, key);
      InsertAtDistinct(s, i, last, dkey);
    }
  }

  lemma InsertAtKeys(xs: seq<string>, i: nat, x: string, key: string -> string)
    requires i <= |xs|
    ensures KeySet(InsertAt(xs, i, x), key) == KeySet(xs, key) + {key(x)}
  {
    var r := InsertAt(xs, i, x);
    forall k | k in KeySet(r, key)
      ensures k in KeySet(xs, key) + {key(x)}
    {
      var j :| 0 <= j < |r| && k == key(r[j]);
      if j < i {
        assert r[j] == xs[j];
      } else if j > i {
        assert r[j] == xs[j - 1];
      }
    }
    forall k | k in KeySet(xs, key)
      ensures k in KeySet(r, key)
    {
      var j :| 0 <= j < |xs| && k == key(xs[j]);
      if j < i {
        assert r[j] == xs[j];
      } else {
        assert r[j + 1] == xs[j];
      }
    }
    assert key(r[i]) == key(x);
  }

  lemma KeySetSnoc(xs: seq<string>, x: string, key: string -> string)
    ensures KeySet(xs + [x], key) == KeySet(xs, key) + {key(x)}
  {
    assert xs + [x] == InsertAt(xs, |xs|, x);
    InsertAtKeys(xs, |xs|, x, key);
  }

  /** Natural order is antisymmetric. */
  lemma LexLeAntisym(a: string, b: string)
    requires LexLe(a, b) && LexLe(b, a)
    ensures a == b
  {
    CompareToAntisym(a, b);
  }

  lemma ConsMultiset(xs: seq<string>)
    requires xs != []
    ensures xs == [xs[0]] + xs[1..]
    ensures multiset(xs) == multiset{xs[0]} + multiset(xs[1..])
  {
    assert xs == [xs[0]] + xs[1..];
  }

  /** Two sorted arrangements of the same elements, keys distinct, start
      with the same element. */
  lemma SortedHeads(a: seq<string>, b: seq<string>, key: string -> string)
    requires SortedBy(a, key) && SortedBy(b, key) && DistinctBy(a, key)
    requires multiset(a) == multiset(b) && a != [] && b != []
    ensures a[0] == b[0]
  {
    assert a[0] in multiset(b);
    var m :| 0 <= m < |b| && b[m] == a[0];
    assert b[0] in multiset(a);
    var n :| 0 <= n < |a| && a[n] == b[0];
    assert LexLe(key(b[0]), key(a[0])) by {
      if m > 0 {
        assert LeBy(b[0], b[m], key);
      }
    }
    assert LexLe(key(a[0]), key(b[0])) by {
      if n > 0 {
        assert LeBy(a[0], a[n], key);
      }
    }
    LexLeAntisym(key(a[0]), key(b[0]));
    assert n == 0;
  }

  /** A list sorted by a key with no repeated key is the only such
      arrangement of its elements. */
  lemma {:induction false} SortedUnique(a: seq<string>, b: seq<string>, key: string -> string)
    requires SortedBy(a, key) && SortedBy(b, key) && DistinctBy(a, key)
    requires multiset(a) == multiset(b)
    ensures a == b
    decreases |a|
  {
    assert |a| == |multiset(a)| == |multiset(b)| == |b|;
    if a != [] {
      SortedHeads(a, b, key);
      ConsMultiset(a);
      ConsMultiset(b);
      assert multiset(a[1..]) == multiset(a) - multiset{a[0]};
      assert multiset(b[1..]) == multiset(b) - multiset{b[0]};
      SortedUnique(a[1..], b[1..], key);
    }
  }
}
