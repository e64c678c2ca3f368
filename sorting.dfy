/** `Array.prototype.sort` with a comparator `(a, b) => key(b) - key(a)`:
    a stable sort by descending key, written as insertion sort. */
module Sorting {

  /** Position of the first occurrence of `x` in `xs`. */
  function IndexOf<T(==)>(xs: seq<T>, x: T): (k: nat)
    requires x in xs
    ensures k < |xs| && xs[k] == x
    ensures forall j :: 0 <= j < k ==> xs[j] != x
  {
    if xs[0] == x then 0 else 1 + IndexOf(xs[1..], x)
  }

  ghost predicate Distinct<T>(xs: seq<T>) {
    forall i, j :: 0 <= i < j < |xs| ==> xs[i] != xs[j]
  }

  ghost predicate Descending<T>(r: seq<T>, key: T -> int) {
    forall i, j :: 0 <= i < j < |r| ==> key(r[i]) >= key(r[j])
  }

  /** Where `InsertDesc` puts `x`: after every leading element whose key is
      at least `key(x)`. */
  function InsertPos<T>(x: T, s: seq<T>, key: T -> int): (k: nat)
    ensures k <= |s|
    ensures forall i :: 0 <= i < k ==> key(s[i]) >= key(x)
    ensures k < |s| ==> key(s[k]) < key(x)
  {
    if s == [] || key(s[0]) < key(x) then 0 else 1 + InsertPos(x, s[1..], key)
  }

  /** One stable insertion step: `x` goes after the elements whose key is at
      least its own, so it follows every earlier element with an equal key. */
  function InsertDesc<T>(x: T, s: seq<T>, key: T -> int): (r: seq<T>)
    ensures multiset(r) == multiset(s) + multiset{x}
  {
    if s == [] then [x]
    else if key(s[0]) < key(x) then [x] + s
    else
      assert s == [s[0]] + s[1..];
      [s[0]] + InsertDesc(x, s[1..], key)
  }

  /** The insertion step, element by element. */
  lemma {:induction false} InsertDescAt<T>(x: T, s: seq<T>, key: T -> int)
    ensures |InsertDesc(x, s, key)| == |s| + 1
    ensures InsertDesc(x, s, key)[InsertPos(x, s, key)] == x
    ensures forall i :: 0 <= i < InsertPos(x, s, key) ==> InsertDesc(x, s, key)[i] == s[i]
    ensures forall i :: InsertPos(x, s, key) < i <= |s| ==> InsertDesc(x, s, key)[i] == s[i - 1]
  {
    if s != [] && key(s[0]) >= key(x) {
      InsertDescAt(x, s[1..], key);
      InsertDescCons(x, s, key);
      ConsAt(s[0], InsertDesc(x, s[1..], key), s[1..], x, InsertPos(x, s[1..], key));
      assert [s[0]] + s[1..] == s;
    }
  }

  lemma InsertDescCons<T>(x: T, s: seq<T>, key: T -> int)
    requires s != [] && key(s[0]) >= key(x)
    ensures InsertDesc(x, s, key) == [s[0]] + InsertDesc(x, s[1..], key)
    ensures InsertPos(x, s, key) == 1 + InsertPos(x, s[1..], key)
  {
  }

  /** Putting the same element in front of a sequence with one element
      inserted at `k` and of the original gives one inserted at `k + 1`. */
  lemma ConsAt<T>(a: T, t: seq<T>, u: seq<T>, x: T, k: nat)
    requires |t| == |u| + 1 && k <= |u| && t[k] == x
    requires forall i :: 0 <= i < k ==> t[i] == u[i]
    requires forall i :: k < i <= |u| ==> t[i] == u[i - 1]
    ensures |[a] + t| == |[a] + u| + 1 && ([a] + t)[k + 1] == x
    ensures forall i :: 0 <= i < k + 1 ==> ([a] + t)[i] == ([a] + u)[i]
    ensures forall i :: k + 1 < i <= |[a] + u| ==> ([a] + t)[i] == ([a] + u)[i - 1]
  {
  }

  /** An insertion step keeps a descending sequence descending. */
  lemma InsertDescSorted<T>(x: T, s: seq<T>, key: T -> int)
    requires Descending(s, key)
    ensures Descending(InsertDesc(x, s, key), key)
  {
    var k := InsertPos(x, s, key);
    var r := InsertDesc(x, s, key);
    InsertDescAt(x, s, key);
    forall i, j | 0 <= i < j < |r| ensures key(r[i]) >= key(r[j]) {
      if i == k && j > k {
        assert key(s[j - 1]) <= key(s[k]);
      }
    }
  }

  /** Stable sort by descending key. */
  function SortDesc<T>(xs: seq<T>, key: T -> int): (r: seq<T>)
    ensures multiset(r) == multiset(xs)
    ensures Descending(r, key)
  {
    if xs == [] then []
    else
      var s := SortDesc(xs[..|xs| - 1], key);
      var x := xs[|xs| - 1];
      assert xs == xs[..|xs| - 1] + [x];
      InsertDescSorted(x, s, key);
      InsertDesc(x, s, key)
  }

  /** Every element of the sorted sequence comes from the input. */
  lemma SortDescIn<T>(xs: seq<T>, key: T -> int, i: int)
    requires 0 <= i < |SortDesc(xs, key)|
    ensures SortDesc(xs, key)[i] in xs
  {
    var r := SortDesc(xs, key);
    assert r[i] in multiset(r);
  }

  /** Positions in a prefix do not change when an element is appended. */
  lemma IndexOfInit<T>(xs: seq<T>, y: T)
    requires xs != [] && y in xs[..|xs| - 1]
    ensures IndexOf(xs, y) == IndexOf(xs[..|xs| - 1], y)
  {
    var p := xs[..|xs| - 1];
    var k := IndexOf(p, y);
    assert xs[k] == y;
    assert forall j :: 0 <= j < |p| ==> xs[j] == p[j];
  }

  /** One step of the sort: the last element is inserted into the sorted rest. */
  lemma SortDescStep<T>(xs: seq<T>, key: T -> int)
    requires xs != []
    ensures SortDesc(xs, key) == InsertDesc(xs[|xs| - 1], SortDesc(xs[..|xs| - 1], key), key)
  {
  }

  /** The first element after an insertion step. */
  lemma InsertDescHead<T>(x: T, s: seq<T>, key: T -> int)
    requires s != []
    ensures InsertDesc(x, s, key)[0] == if key(s[0]) < key(x) then x else s[0]
  {
  }

  /** `m` is the first element of `xs` with the largest key. */
  ghost predicate FirstMax<T>(xs: seq<T>, key: T -> int, m: T) {
    && m in xs
    && (forall j :: 0 <= j < |xs| ==> key(xs[j]) <= key(m))
    && (forall j :: 0 <= j < IndexOf(xs, m) ==> key(xs[j]) < key(m))
  }

  /** Appending an element extends the first maximum of a prefix. */
  lemma FirstMaxSnoc<T>(xs: seq<T>, key: T -> int, h: T)
    requires |xs| > 1 && FirstMax(xs[..|xs| - 1], key, h)
    ensures FirstMax(xs, key, if key(h) < key(xs[|xs| - 1]) then xs[|xs| - 1] else h)
  {
    var p, x := xs[..|xs| - 1], xs[|xs| - 1];
    assert forall j :: 0 <= j < |p| ==> xs[j] == p[j];
    if key(h) < key(x) {
      assert x !in p;
      assert IndexOf(xs, x) == |p|;
    } else {
      IndexOfInit(xs, h);
    }
  }

  /** The head of the sorted sequence is the first element of maximal key. */
  lemma {:induction false} SortDescHead<T>(xs: seq<T>, key: T -> int)
    requires xs != []
    ensures FirstMax(xs, key, SortDesc(xs, key)[0])
  {
    var p, x := xs[..|xs| - 1], xs[|xs| - 1];
    var s := SortDesc(p, key);
    SortDescStep(xs, key);
    if p == [] {
      assert SortDesc(xs, key) == [x];
      assert xs == [x];
    } else {
      SortDescHead(p, key);
      InsertDescHead(x, s, key);
      FirstMaxSnoc(xs, key, s[0]);
    }
  }

  /** Sorting distinct elements is stable: elements with equal keys keep the
      order they had in the input. */
  lemma {:induction false} SortDescStable<T>(xs: seq<T>, key: T -> int, i: int, j: int)
    requires Distinct(xs)
    requires 0 <= i < j < |SortDesc(xs, key)|
    requires key(SortDesc(xs, key)[i]) == key(SortDesc(xs, key)[j])
    ensures SortDesc(xs, key)[i] in xs && SortDesc(xs, key)[j] in xs
    ensures IndexOf(xs, SortDesc(xs, key)[i]) < IndexOf(xs, SortDesc(xs, key)[j])
  {
    var p, x := xs[..|xs| - 1], xs[|xs| - 1];
    var s := SortDesc(p, key);
    var k := InsertPos(x, s, key);
    SortDescStep(xs, key);
    InsertDescAt(x, s, key);
    if j == k {
      SortDescIn(p, key, i);
      IndexOfBeforeLast(xs, s[i]);
    } else if i != k {
      var i', j' := if i < k then i else i - 1, if j < k then j else j - 1;
      DistinctInit(xs);
      SortDescStable(p, key, i', j');
      IndexOfInitOrder(xs, s[i'], s[j']);
    }
  }

  lemma DistinctInit<T>(xs: seq<T>)
    requires xs != [] && Distinct(xs)
    ensures Distinct(xs[..|xs| - 1]) && xs[|xs| - 1] !in xs[..|xs| - 1]
  {
  }

  /** An element of the prefix comes before the last element, when that one
      does not occur earlier. */
  lemma IndexOfBeforeLast<T>(xs: seq<T>, y: T)
    requires xs != [] && y in xs[..|xs| - 1] && xs[|xs| - 1] !in xs[..|xs| - 1]
    ensures y in xs && xs[|xs| - 1] in xs
    ensures IndexOf(xs, y) < IndexOf(xs, xs[|xs| - 1])
  {
    IndexOfInit(xs, y);
    var p := xs[..|xs| - 1];
    assert forall m :: 0 <= m < |p| ==> xs[m] == p[m];
    assert IndexOf(xs, xs[|xs| - 1]) == |p|;
  }

  /** The order of two elements of the prefix is kept when one is appended. */
  lemma IndexOfInitOrder<T>(xs: seq<T>, a: T, b: T)
    requires xs != [] && a in xs[..|xs| - 1] && b in xs[..|xs| - 1]
    requires IndexOf(xs[..|xs| - 1], a) < IndexOf(xs[..|xs| - 1], b)
    ensures a in xs && b in xs && IndexOf(xs, a) < IndexOf(xs, b)
  {
    IndexOfInit(xs, a);
    IndexOfInit(xs, b);
  }

  /** Sorting keeps distinct elements distinct. */
  lemma {:induction false} SortDescDistinct<T>(xs: seq<T>, key: T -> int)
    requires Distinct(xs)
    ensures Distinct(SortDesc(xs, key))
  {
    if xs != [] {
      var p, x := xs[..|xs| - 1], xs[|xs| - 1];
      var s := SortDesc(p, key);
      var r := SortDesc(xs, key);
      SortDescDistinct(p, key);
      SortDescStep(xs, key);
      InsertDescAt(x, s, key);
      var k := InsertPos(x, s, key);
      assert x !in p;
      forall i | 0 <= i < |s| ensures s[i] != x {
        SortDescIn(p, key, i);
      }
      forall i, j | 0 <= i < j < |r| ensures r[i] != r[j] {
        if i != k && j != k {
          var i', j' := if i < k then i else i - 1, if j < k then j else j - 1;
          assert r[i] == s[i'] && r[j] == s[j'];
        }
      }
    }
  }
}
