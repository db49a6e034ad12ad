/** Sequence helpers: the `filter`/`map` of JavaScript arrays, subsequences,
    and the stable sort behind `Array.prototype.sort` and SQL `ORDER BY`. */
module Seqs {
  import opened Wrappers


  /** `s.filter(f)`: the elements of `s` satisfying `f`, in their order. */
  function Filter<T>(s: seq<T>, f: T -> bool): (r: seq<T>)
    ensures |r| <= |s|
    ensures forall i | 0 <= i < |r| :: f(r[i]) && r[i] in s
    ensures forall x | x in r :: f(x)
  {
    if s == [] then []
    else (if f(s[0]) then [s[0]] else []) + Filter(s[1..], f)
  }

  lemma {:induction false} FilterCons<T>(x: T, s: seq<T>, f: T -> bool)
    ensures Filter([x] + s, f) == (if f(x) then [x] else []) + Filter(s, f)
  {
    assert ([x] + s)[0] == x && ([x] + s)[1..] == s;
  }

  lemma {:induction false} FilterConcat<T>(a: seq<T>, b: seq<T>, f: T -> bool)
    ensures Filter(a + b, f) == Filter(a, f) + Filter(b, f)
  {
    if a == [] {
      assert a + b == b;
    } else {
      assert (a + b)[0] == a[0];
      assert (a + b)[1..] == a[1..] + b;
      FilterConcat(a[1..], b, f);
    }
  }

  /** Filtering a sequence whose elements all pass keeps it whole. */
  lemma {:induction false} FilterAllPass<T>(s: seq<T>, f: T -> bool)
    requires forall i | 0 <= i < |s| :: f(s[i])
    ensures Filter(s, f) == s
  {
    if s != [] {
      FilterAllPass(s[1..], f);
    }
  }

  /** Filtering a sequence whose elements all fail leaves nothing. */
  lemma {:induction false} FilterNonePass<T>(s: seq<T>, f: T -> bool)
    requires forall i | 0 <= i < |s| :: !f(s[i])
    ensures Filter(s, f) == []
  {
    if s != [] {
      FilterNonePass(s[1..], f);
    }
  }

  /** Nothing passes the filter exactly when no element satisfies `f`. */
  lemma {:induction false} FilterEmptyIff<T>(s: seq<T>, f: T -> bool)
    ensures Filter(s, f) == [] <==> forall i | 0 <= i < |s| :: !f(s[i])
  {
    if s != [] {
      FilterEmptyIff(s[1..], f);
      assert forall i | 1 <= i < |s| :: s[i] == s[1..][i - 1];
    }
  }

  /** Cutting off ends whose elements all fail the filter does not change it. */
  lemma {:induction false} FilterSlice<T>(s: seq<T>, a: nat, b: nat, f: T -> bool)
    requires a <= b <= |s|
    requires forall i | 0 <= i < a :: !f(s[i])
    requires forall i | b <= i < |s| :: !f(s[i])
    ensures Filter(s[a..b], f) == Filter(s, f)
  {
    var pre, mid, post := s[..a], s[a..b], s[b..];
    assert s == pre + mid + post;
    FilterNonePass(pre, f);
    FilterNonePass(post, f);
    FilterConcat(pre + mid, post, f);
    FilterConcat(pre, mid, f);
  }

  /** Splitting a filter into two disjoint cases splits its elements. */
  lemma {:induction false} FilterPartition<T>(s: seq<T>, f: T -> bool, a: T -> bool, b: T -> bool)
    requires forall x :: f(x) <==> a(x) || b(x)
    requires forall x :: !(a(x) && b(x))
    ensures multiset(Filter(s, a)) + multiset(Filter(s, b)) == multiset(Filter(s, f))
  {
    if s != [] {
      FilterPartition(s[1..], f, a, b);
    }
  }

  /** An element that is in `s` and passes `f` is kept by the filter. */
  lemma {:induction false} FilterKeeps<T>(s: seq<T>, f: T -> bool, x: T)
    requires x in s && f(x)
    ensures x in Filter(s, f)
  {
    if s[0] != x {
      FilterKeeps(s[1..], f, x);
    }
  }

  /** The filter keeps every occurrence of a passing element and none of a
      failing one. */
  lemma {:induction false} FilterCounts<T>(s: seq<T>, f: T -> bool, x: T)
    ensures multiset(Filter(s, f))[x] == if f(x) then multiset(s)[x] else 0
  {
    if s != [] {
      FilterCounts(s[1..], f, x);
      assert s == [s[0]] + s[1..];
    }
  }

  /** `s.findIndex(f)`, as an option: the first position whose element
      passes `f`. */
  function FirstIndex<T>(s: seq<T>, f: T -> bool): (k: Option<nat>)
    ensures k.Some? ==> k.value < |s| && f(s[k.value])
    ensures k.Some? ==> forall j | 0 <= j < k.value :: !f(s[j])
    ensures k.None? <==> forall j | 0 <= j < |s| :: !f(s[j])
  {
    if s == [] then None
    else if f(s[0]) then Some(0)
    else match FirstIndex(s[1..], f)
      case None => None
      case Some(k) => Some(k + 1)
  }

  /** `s.map(f)`. */
  function MapSeq<A, B>(s: seq<A>, f: A -> B): (r: seq<B>)
    ensures |r| == |s|
    ensures forall i | 0 <= i < |s| :: r[i] == f(s[i])
  {
    if s == [] then [] else [f(s[0])] + MapSeq(s[1..], f)
  }

  lemma {:induction false} MapConcat<A, B>(a: seq<A>, b: seq<A>, f: A -> B)
    ensures MapSeq(a + b, f) == MapSeq(a, f) + MapSeq(b, f)
  {
  }

  /** Taking one element out of a sequence takes its image out of the
      mapped sequence. */
  lemma {:induction false} RemoveAt<A, B>(b: seq<A>, j: nat, f: A -> B)
    requires j < |b|
    ensures multiset(b[..j] + b[j + 1..]) == multiset(b) - multiset{b[j]}
    ensures multiset(MapSeq(b, f)) == multiset{f(b[j])} + multiset(MapSeq(b[..j] + b[j + 1..], f))
  {
    var x := b[j];
    assert b == b[..j] + [x] + b[j + 1..];
    MapConcat(b[..j] + [x], b[j + 1..], f);
    MapConcat(b[..j], [x], f);
    MapConcat(b[..j], b[j + 1..], f);
  }

  lemma {:induction false} MultisetHead<T>(a: seq<T>)
    requires a != []
    ensures multiset(a) == multiset{a[0]} + multiset(a[1..])
  {
    assert a == [a[0]] + a[1..];
  }

  lemma {:induction false} MapHead<A, B>(a: seq<A>, f: A -> B)
    requires a != []
    ensures multiset(MapSeq(a, f)) == multiset{f(a[0])} + multiset(MapSeq(a[1..], f))
  {
    assert MapSeq(a, f) == [f(a[0])] + MapSeq(a[1..], f);
  }

  /** Mapping two permutations of each other gives permutations of each other. */
  lemma {:induction false} MapPermutation<A, B>(a: seq<A>, b: seq<A>, f: A -> B)
    requires multiset(a) == multiset(b)
    ensures multiset(MapSeq(a, f)) == multiset(MapSeq(b, f))
  {
    if a == [] {
      assert |b| == |multiset(b)| == 0;
    } else {
      var x := a[0];
      assert x in multiset(b);
      var j :| 0 <= j < |b| && b[j] == x;
      var rest := b[..j] + b[j + 1..];
      RemoveAt(b, j, f);
      MultisetHead(a);
      MapPermutation(a[1..], rest, f);
      MapHead(a, f);
    }
  }

  /** `r` is obtained from `s` by deleting elements, keeping the order of the rest. */
  predicate IsSubsequence<T(==)>(r: seq<T>, s: seq<T>)
  {
    if r == [] then true
    else if s == [] then false
    else if r[0] == s[0] then IsSubsequence(r[1..], s[1..])
    else IsSubsequence(r, s[1..])
  }

  lemma {:induction false} FilterIsSubsequence<T>(s: seq<T>, f: T -> bool)
    ensures IsSubsequence(Filter(s, f), s)
  {
    if s != [] {
      FilterIsSubsequence(s[1..], f);
      if f(s[0]) {
        assert Filter(s, f) == [s[0]] + Filter(s[1..], f);
      } else {
        assert Filter(s, f) == Filter(s[1..], f);
        SubsequenceOfTail(Filter(s[1..], f), s);
      }
    }
  }

  lemma {:induction false} SubsequenceOfTail<T>(r: seq<T>, s: seq<T>)
    requires s != [] && IsSubsequence(r, s[1..])
    ensures IsSubsequence(r, s)
  {
    if r != [] && r[0] == s[0] {
      // r[0] also heads the match inside s[1..]; peel it off there.
      SubsequenceDropHead(r, s[1..]);
    }
  }

  lemma {:induction false} SubsequenceDropHead<T>(r: seq<T>, s: seq<T>)
    requires r != [] && IsSubsequence(r, s)
    ensures IsSubsequence(r[1..], s)
  {
    if s != [] {
      if r[0] == s[0] {
        if r[1..] != [] {
          SubsequenceOfTail(r[1..], s);
        }
      } else {
        SubsequenceDropHead(r, s[1..]);
        if r[1..] != [] {
          SubsequenceOfTail(r[1..], s);
        }
      }
    }
  }
}
