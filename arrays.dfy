/** The `Array.prototype` methods the library is built from (`findIndex`,
    `find`, `filter`, `some`, `every`), over Dafny sequences, and the facts
    about them that the rest of the model uses. */
module Arrays {
  import opened Types

  /** `findIndex`: the first index whose element satisfies `p`, or -1. */
  function FindIndex<T>(s: seq<T>, p: T -> bool): (i: int)
    ensures -1 <= i < |s|
    ensures 0 <= i ==> p(s[i]) && forall k :: 0 <= k < i ==> !p(s[k])
    ensures i == -1 <==> forall k :: 0 <= k < |s| ==> !p(s[k])
  {
    if s == [] then -1
    else if p(s[0]) then 0
    else
      var j := FindIndex(s[1..], p);
      if j < 0 then -1 else j + 1
  }

  /** `find`: the first element satisfying `p`, if any. */
  function Find<T>(s: seq<T>, p: T -> bool): (r: Option<T>)
    ensures r.Some? ==> r.value in s && p(r.value)
    ensures r.None? <==> forall k :: 0 <= k < |s| ==> !p(s[k])
  {
    var i := FindIndex(s, p);
    if i < 0 then None else Some(s[i])
  }

  /** When exactly one element satisfies `p`, `find` returns it. */
  lemma FindUnique<T>(s: seq<T>, p: T -> bool, k: nat)
    requires k < |s| && p(s[k])
    requires forall j :: 0 <= j < |s| && j != k ==> !p(s[j])
    ensures FindIndex(s, p) == k && Find(s, p) == Some(s[k])
  {
  }

  /** `filter`: every element satisfying `p` is kept as often as it occurs,
      every other one is dropped. */
  function Filter<T(==,!new)>(s: seq<T>, p: T -> bool): (r: seq<T>)
    ensures |r| <= |s|
    ensures forall x :: x in r ==> x in s && p(x)
    ensures forall k :: 0 <= k < |s| && p(s[k]) ==> s[k] in r
    ensures forall x :: multiset(r)[x] == if p(x) then multiset(s)[x] else 0
  {
    if s == [] then []
    else
      assert s == [s[0]] + s[1..];
      if p(s[0]) then [s[0]] + Filter(s[1..], p) else Filter(s[1..], p)
  }

  /** `filter` works element by element: filtering a concatenation is
      concatenating the filtered parts. */
  lemma {:induction false} FilterConcat<T(!new)>(a: seq<T>, b: seq<T>, p: T -> bool)
    ensures Filter(a + b, p) == Filter(a, p) + Filter(b, p)
  {
    if a == [] {
      assert a + b == b;
    } else {
      var x, rest := a[0], a[1..];
      SplitHead(a, b);
      FilterCons(x, rest + b, p);
      FilterCons(x, rest, p);
      FilterConcat(rest, b, p);
      Associative([x], Filter(rest, p), Filter(b, p));
    }
  }

  /** A non-empty sequence is its head followed by its tail, also in front
      of a concatenation. */
  lemma SplitHead<T>(a: seq<T>, b: seq<T>)
    requires a != []
    ensures a == [a[0]] + a[1..] && a + b == [a[0]] + (a[1..] + b)
  {
  }

  lemma Associative<T>(x: seq<T>, y: seq<T>, z: seq<T>)
    ensures x + y + z == x + (y + z)
  {
  }

  lemma FilterCons<T(!new)>(x: T, rest: seq<T>, p: T -> bool)
    ensures Filter([x] + rest, p) == if p(x) then [x] + Filter(rest, p) else Filter(rest, p)
  {
    assert ([x] + rest)[0] == x && ([x] + rest)[1..] == rest;
  }

  /** `a` is `b` with some elements dropped and the rest in their order. */
  predicate IsSubsequence<T(==)>(a: seq<T>, b: seq<T>)
  {
    if a == [] then true
    else if b == [] then false
    else if a[0] == b[0] then IsSubsequence(a[1..], b[1..])
    else IsSubsequence(a, b[1..])
  }

  lemma {:induction false} SubsequenceOfTail<T>(a: seq<T>, b: seq<T>)
    requires b != [] && IsSubsequence(a, b[1..])
    ensures IsSubsequence(a, b)
    decreases |b|
  {
    if a != [] && a[0] == b[0] {
      // a[1..] fits in b[2..], hence in b[1..]
      SubsequenceTailDrop(a, b[1..]);
      SubsequenceOfTail(a[1..], b[1..]);
    }
  }

  lemma {:induction false} SubsequenceTailDrop<T>(a: seq<T>, b: seq<T>)
    requires a != [] && IsSubsequence(a, b)
    ensures b != [] && IsSubsequence(a[1..], b[1..])
    decreases |b|
  {
    if b == [] {
    } else if a[0] == b[0] {
    } else {
      SubsequenceTailDrop(a, b[1..]);
      SubsequenceOfTail(a[1..], b[1..]);
    }
  }

  /** `filter` keeps the order of what it keeps. */
  lemma {:induction false} FilterIsSubsequence<T(!new)>(s: seq<T>, p: T -> bool)
    ensures IsSubsequence(Filter(s, p), s)
  {
    if s != [] {
      FilterIsSubsequence(s[1..], p);
      if !p(s[0]) {
        SubsequenceOfTail(Filter(s[1..], p), s);
      }
    }
  }

  /** `filter` with a weaker predicate keeps at least as many elements. */
  lemma {:induction false} FilterLengthMonotone<T(!new)>(s: seq<T>, p: T -> bool, q: T -> bool)
    requires forall k :: 0 <= k < |s| && p(s[k]) ==> q(s[k])
    ensures |Filter(s, p)| <= |Filter(s, q)|
  {
    if s != [] {
      FilterLengthMonotone(s[1..], p, q);
    }
  }

  /** `filter` with predicates that agree on the elements keeps the same ones. */
  lemma {:induction false} FilterAgree<T(!new)>(s: seq<T>, p: T -> bool, q: T -> bool)
    requires forall k :: 0 <= k < |s| ==> p(s[k]) == q(s[k])
    ensures Filter(s, p) == Filter(s, q)
  {
    if s != [] {
      FilterAgree(s[1..], p, q);
    }
  }

  /** `filter` keeps everything exactly when every element satisfies `p`. */
  lemma {:induction false} FilterFull<T(!new)>(s: seq<T>, p: T -> bool)
    ensures |Filter(s, p)| == |s| <==> forall k :: 0 <= k < |s| ==> p(s[k])
  {
    if s != [] {
      FilterFull(s[1..], p);
      var t := Filter(s[1..], p);
      if p(s[0]) {
        assert Filter(s, p) == [s[0]] + t;
      } else {
        assert Filter(s, p) == t;
      }
    }
  }

  /** `filter` with a predicate every element satisfies is the identity. */
  lemma {:induction false} FilterKeepsAll<T(!new)>(s: seq<T>, p: T -> bool)
    requires forall k :: 0 <= k < |s| ==> p(s[k])
    ensures Filter(s, p) == s
  {
    if s != [] {
      FilterKeepsAll(s[1..], p);
    }
  }

  /** `some`. */
  function Any<T>(s: seq<T>, p: T -> bool): (b: bool)
    ensures b <==> exists k :: 0 <= k < |s| && p(s[k])
  {
    FindIndex(s, p) >= 0
  }

  /** `every`. */
  function All<T>(s: seq<T>, p: T -> bool): (b: bool)
    ensures b <==> forall k :: 0 <= k < |s| ==> p(s[k])
  {
    FindIndex(s, x => !p(x)) < 0
  }

  /** No element occurs twice. */
  predicate Distinct<T(==)>(s: seq<T>)
  {
    forall i, j :: 0 <= i < j < |s| ==> s[i] != s[j]
  }

  function Elements<T>(s: seq<T>): set<T>
  {
    set x | x in s
  }

  lemma {:induction false} ElementsBound<T>(s: seq<T>)
    ensures |Elements(s)| <= |s|
    ensures Distinct(s) ==> |Elements(s)| == |s|
  {
    if s != [] {
      ElementsBound(s[1..]);
      assert Elements(s) == {s[0]} + Elements(s[1..]);
      if Distinct(s) {
        assert s[0] !in Elements(s[1..]);
      }
    }
  }
}
