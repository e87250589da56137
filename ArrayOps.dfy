/**
 * The few Ruby Array and Integer operations the solver is built from,
 * stated as functions on sequences: Integer#step, Range#to_a,
 * Array#flatten, Array#uniq, Array#select, Array#values_at, Array#- ,
 * Array#index and Array#sort.  Each carries the contract the solver
 * relies on.
 */
module ArrayOps {

  datatype Option<T> = None | Some(value: T)

  predicate StrictlyIncreasing(s: seq<int>) {
    forall i, j :: 0 <= i < j < |s| ==> s[i] < s[j]
  }

  predicate Sorted(s: seq<int>) {
    forall i, j :: 0 <= i < j < |s| ==> s[i] <= s[j]
  }

  predicate Distinct<T(==)>(s: seq<T>) {
    forall i, j :: 0 <= i < j < |s| ==> s[i] != s[j]
  }

  /** `from.step(limit, stride)`: from, from + stride, from + 2*stride, ... as long as the value is at most limit. */
  function Step(from: int, limit: int, stride: int): (r: seq<int>)
    requires stride > 0
    ensures |r| == 0 <==> from > limit
    ensures |r| > 0 ==> r[|r| - 1] <= limit < r[|r| - 1] + stride
    ensures forall k :: 0 <= k < |r| ==> r[k] == from + k * stride
    decreases limit - from
  {
    if from > limit then [] else [from] + Step(from + stride, limit, stride)
  }

  /** `(lo..hi).to_a`: every integer from lo to hi, ascending. */
  function Range(lo: int, hi: int): (r: seq<int>)
    ensures |r| == if lo <= hi then hi - lo + 1 else 0
    ensures StrictlyIncreasing(r)
    ensures forall x :: x in r <==> lo <= x <= hi
  {
    if lo > hi then []
    else
      var r := seq(hi - lo + 1, k => lo + k);
      assert forall x :: lo <= x <= hi ==> x in r by {
        forall x | lo <= x <= hi ensures x in r {
          assert r[x - lo] == x;
        }
      }
      r
  }

  /** `Array#flatten` one level deep: the inner lists concatenated in order. */
  function Flatten<T(==,!new)>(ss: seq<seq<T>>): (r: seq<T>)
    ensures forall x :: x in r <==> exists k :: 0 <= k < |ss| && x in ss[k]
  {
    if ss == [] then []
    else
      var rest := Flatten(ss[1..]);
      assert forall x :: x in rest <==> exists k :: 1 <= k < |ss| && x in ss[k] by {
        forall x | x in rest ensures exists k :: 1 <= k < |ss| && x in ss[k] {
          var k :| 0 <= k < |ss[1..]| && x in ss[1..][k];
          assert x in ss[k + 1];
        }
        forall x, k | 1 <= k < |ss| && x in ss[k] ensures x in rest {
          assert x in ss[1..][k - 1];
        }
      }
      ss[0] + rest
  }

  /** `Array#uniq`: the first occurrence of every element, in order of appearance. */
  function Uniq<T(==,!new)>(s: seq<T>): (r: seq<T>)
    ensures forall x :: x in r <==> x in s
    ensures Distinct(r)
  {
    if s == [] then []
    else
      var init := s[..|s| - 1];
      var last := s[|s| - 1];
      assert s == init + [last];
      var u := Uniq(init);
      if last in init then u else u + [last]
  }

  /** `Array#select` with the block `keep`: the elements that satisfy it, in order. */
  function Select(s: seq<int>, keep: int -> bool): (r: seq<int>)
    ensures forall x :: x in r <==> x in s && keep(x)
  {
    if s == [] then []
    else
      assert forall x :: x in s <==> x == s[0] || x in s[1..];
      (if keep(s[0]) then [s[0]] else []) + Select(s[1..], keep)
  }

  /** `a - b` on arrays: the elements of a that do not occur in b, in the order of a. */
  function Difference(a: seq<int>, b: seq<int>): (r: seq<int>)
    ensures forall x :: x in r <==> x in a && x !in b
    ensures |r| <= |a|
    ensures StrictlyIncreasing(a) ==> StrictlyIncreasing(r)
  {
    if a == [] then []
    else
      assert a == [a[0]] + a[1..];
      var rest := Difference(a[1..], b);
      if a[0] in b then rest
      else
        HeadBelowTail(a);
        ConsIncreasing(a[0], rest);
        [a[0]] + rest
  }

  /** `Array#values_at`: the elements of s at the positions ix, in that order. */
  function ValuesAt<T>(s: seq<T>, ix: seq<int>): (r: seq<T>)
    requires forall k :: 0 <= k < |ix| ==> 0 <= ix[k] < |s|
    ensures |r| == |ix|
    ensures forall k :: 0 <= k < |ix| ==> r[k] == s[ix[k]]
  {
    if ix == [] then [] else [s[ix[0]]] + ValuesAt(s, ix[1..])
  }

  /** `Array#index`: the position of the first occurrence of x, or nil. */
  function IndexOf<T(==)>(s: seq<T>, x: T): (r: Option<nat>)
    ensures r.None? <==> x !in s
    ensures r.Some? ==> r.value < |s| && s[r.value] == x && x !in s[..r.value]
  {
    if s == [] then None
    else if s[0] == x then Some(0)
    else
      match IndexOf(s[1..], x)
      case None => None
      case Some(k) =>
        assert s[..k + 1] == [s[0]] + s[1..][..k];
        Some(k + 1)
  }

  /** In an ascending list the head lies below every element of the tail. */
  lemma HeadBelowTail(s: seq<int>)
    ensures |s| > 0 ==> s == [s[0]] + s[1..]
    ensures |s| > 0 && Sorted(s) ==> forall y :: y in s[1..] ==> s[0] <= y
    ensures |s| > 0 && StrictlyIncreasing(s) ==> forall y :: y in s[1..] ==> s[0] < y
  {
    if |s| > 0 {
      forall y | y in s[1..] ensures exists j :: 0 < j < |s| && s[j] == y {
        var j :| 0 <= j < |s[1..]| && s[1..][j] == y;
        assert s[j + 1] == y;
      }
    }
  }

  /** Putting h in front of a list whose elements all lie above it keeps the list ascending. */
  lemma ConsIncreasing(h: int, t: seq<int>)
    ensures Sorted(t) && (forall y :: y in t ==> h <= y) ==> Sorted([h] + t)
    ensures StrictlyIncreasing(t) && (forall y :: y in t ==> h < y) ==> StrictlyIncreasing([h] + t)
  {
    var r := [h] + t;
    assert forall j :: 0 < j < |r| ==> r[j] == t[j - 1] && r[j] in t;
  }

  /** An element of a multiset union of a list and {x} is x or comes from the list. */
  lemma MemberOfUnion(rest: seq<int>, t: seq<int>, x: int)
    requires multiset(rest) == multiset(t) + multiset{x}
    ensures forall y :: y in rest ==> y == x || y in t
  {
    forall y | y in rest ensures y == x || y in t {
      assert y in multiset(rest);
    }
  }

  /** Inserts x into a sorted list, keeping it sorted. */
  function Insert(x: int, s: seq<int>): (r: seq<int>)
    requires Sorted(s)
    ensures Sorted(r)
    ensures multiset(r) == multiset(s) + multiset{x}
    ensures StrictlyIncreasing(s) && x !in s ==> StrictlyIncreasing(r)
  {
    if s == [] || x <= s[0] then
      InsertAtHead(x, s);
      [x] + s
    else
      HeadBelowTail(s);
      var rest := Insert(x, s[1..]);
      InsertBehindHead(x, s, rest);
      [s[0]] + rest
  }

  lemma InsertAtHead(x: int, s: seq<int>)
    requires Sorted(s) && (s == [] || x <= s[0])
    ensures Sorted([x] + s)
    ensures StrictlyIncreasing(s) && x !in s ==> StrictlyIncreasing([x] + s)
  {
    HeadBelowTail(s);
    ConsIncreasing(x, s);
  }

  lemma InsertBehindHead(x: int, s: seq<int>, rest: seq<int>)
    requires Sorted(s) && s != [] && s[0] < x
    requires Sorted(rest) && multiset(rest) == multiset(s[1..]) + multiset{x}
    requires StrictlyIncreasing(s[1..]) && x !in s[1..] ==> StrictlyIncreasing(rest)
    ensures Sorted([s[0]] + rest)
    ensures multiset([s[0]] + rest) == multiset(s) + multiset{x}
    ensures StrictlyIncreasing(s) && x !in s ==> StrictlyIncreasing([s[0]] + rest)
  {
    HeadBelowTail(s);
    MemberOfUnion(rest, s[1..], x);
    ConsIncreasing(s[0], rest);
    if StrictlyIncreasing(s) && x !in s {
      assert StrictlyIncreasing(s[1..]);
    }
  }

  /** `Array#sort` on integers: the same elements in ascending order. */
  function Sort(s: seq<int>): (r: seq<int>)
    ensures Sorted(r)
    ensures multiset(r) == multiset(s)
    ensures Distinct(s) ==> StrictlyIncreasing(r)
  {
    if s == [] then []
    else
      assert s == [s[0]] + s[1..];
      var rest := Sort(s[1..]);
      assert Distinct(s) ==> s[0] !in rest by {
        if Distinct(s) {
          assert s[0] !in s[1..];
          assert s[0] !in multiset(s[1..]);
        }
      }
      Insert(s[0], rest)
  }

  /** Sorting keeps the length and exactly the same elements. */
  lemma SortKeepsMembers(s: seq<int>)
    ensures |Sort(s)| == |s|
    ensures forall x :: x in Sort(s) <==> x in s
  {
    var r := Sort(s);
    assert |r| == |multiset(r)| == |multiset(s)| == |s|;
    forall x ensures x in r <==> x in s {
      assert x in r <==> x in multiset(r);
      assert x in s <==> x in multiset(s);
    }
  }

  /** A strictly ascending list whose only value is d is [d]. */
  lemma SingleValue(c: seq<int>, d: int)
    requires StrictlyIncreasing(c) && d in c
    requires forall x :: x in c ==> x == d
    ensures c == [d]
  {
    if |c| >= 2 {
      FirstTwo(c);
      assert false;
    }
  }

  /** Helper for SingleValue: the first two elements of a list of length two or more belong to it. */
  lemma FirstTwo(c: seq<int>)
    requires |c| >= 2
    ensures c[0] in c && c[1] in c
  {
  }

  /** Helper for TwoCandidates: a list holding two different values has at least two elements. */
  lemma TwoValues(c: seq<int>, d1: int, d2: int)
    requires d1 in c && d2 in c && d1 != d2
    ensures |c| >= 2
  {
  }
}
