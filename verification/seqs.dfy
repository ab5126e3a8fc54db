/** Generic sequence operations shared by the text functions and the
    clustering pipeline: filtering, subsequences, duplicate-freedom,
    de-duplication (`unique()`), sorted de-duplication (`sorted(set(..))`)
    and flattening (`pd.concat`). */
module Seqs {

  /** The elements of `s` satisfying `p`, in their original order. */
  function Filter<T(!new)>(s: seq<T>, p: T -> bool): (r: seq<T>)
    ensures |r| <= |s|
    ensures forall x :: x in r <==> x in s && p(x)
    ensures multiset(r) <= multiset(s)
  {
    if |s| == 0 then []
    else
      assert s == [s[0]] + s[1..];
      (if p(s[0]) then [s[0]] else []) + Filter(s[1..], p)
  }

  lemma {:induction false} FilterAppend<T(!new)>(a: seq<T>, b: seq<T>, p: T -> bool)
    ensures Filter(a + b, p) == Filter(a, p) + Filter(b, p)
    decreases |a|
  {
    if |a| > 0 {
      assert (a + b)[0] == a[0];
      assert (a + b)[1..] == a[1..] + b;
      FilterAppend(a[1..], b, p);
    } else {
      assert a + b == b;
    }
  }

  /** Filtering keeps everything when every element passes. */
  lemma {:induction false} FilterAll<T(!new)>(s: seq<T>, p: T -> bool)
    requires forall x :: x in s ==> p(x)
    ensures Filter(s, p) == s
    decreases |s|
  {
    if |s| > 0 {
      assert s[0] in s;
      assert forall x :: x in s[1..] ==> x in s;
      FilterAll(s[1..], p);
    }
  }

  /** Filtering keeps nothing when nothing passes. */
  lemma {:induction false} FilterNone<T(!new)>(s: seq<T>, p: T -> bool)
    requires forall x :: x in s ==> !p(x)
    ensures Filter(s, p) == []
    decreases |s|
  {
    if |s| > 0 {
      assert s[0] in s;
      assert forall x :: x in s[1..] ==> x in s;
      FilterNone(s[1..], p);
    }
  }

  /** How often a value survives filtering: all of its copies when it
      passes, none otherwise. */
  lemma {:induction false} FilterCount<T(!new)>(s: seq<T>, p: T -> bool, x: T)
    ensures multiset(Filter(s, p))[x] == if p(x) then multiset(s)[x] else 0
    decreases |s|
  {
    if |s| > 0 {
      FilterCount(s[1..], p, x);
      assert s == [s[0]] + s[1..];
    }
  }

  /** `f` applied to every element. */
  function Map<A, B>(s: seq<A>, f: A -> B): (r: seq<B>)
    ensures |r| == |s|
    ensures forall i :: 0 <= i < |s| ==> r[i] == f(s[i])
  {
    seq(|s|, i requires 0 <= i < |s| => f(s[i]))
  }

  lemma MapAppend<A, B>(a: seq<A>, b: seq<A>, f: A -> B)
    ensures Map(a + b, f) == Map(a, f) + Map(b, f)
  {
  }

  /** Taking one element out of a sequence takes it out of its multiset. */
  lemma RemoveAt<T>(s: seq<T>, k: nat)
    requires k < |s|
    ensures multiset(s) == multiset(s[..k] + s[k + 1..]) + multiset{s[k]}
  {
    assert s == s[..k] + [s[k]] + s[k + 1..];
  }

  lemma MapRemoveAt<A, B>(s: seq<A>, k: nat, f: A -> B)
    requires k < |s|
    ensures multiset(Map(s, f)) == multiset(Map(s[..k] + s[k + 1..], f)) + multiset{f(s[k])}
  {
    var m := Map(s, f);
    RemoveAt(m, k);
    assert m[..k] + m[k + 1..] == Map(s[..k] + s[k + 1..], f);
  }

  /** Removing the same element from both sides keeps sub-multiset order. */
  lemma MultisetRemoveLast<T>(a: seq<T>, b: seq<T>, k: nat)
    requires |a| > 0 && k < |b| && b[k] == a[|a| - 1]
    requires multiset(a) <= multiset(b)
    ensures multiset(a[..|a| - 1]) <= multiset(b[..k] + b[k + 1..])
  {
    var a' := a[..|a| - 1];
    var b' := b[..k] + b[k + 1..];
    assert a == a' + [a[|a| - 1]];
    RemoveAt(b, k);
    forall y ensures multiset(a')[y] <= multiset(b')[y] {
      assert multiset(a)[y] <= multiset(b)[y];
    }
  }

  lemma MapMonoStep<A, B>(a: seq<A>, b: seq<A>, k: nat, f: A -> B)
    requires |a| > 0 && k < |b| && b[k] == a[|a| - 1]
    requires multiset(Map(a[..|a| - 1], f)) <= multiset(Map(b[..k] + b[k + 1..], f))
    ensures multiset(Map(a, f)) <= multiset(Map(b, f))
  {
    assert a == a[..|a| - 1] + [a[|a| - 1]];
    MapAppend(a[..|a| - 1], [a[|a| - 1]], f);
    MapRemoveAt(b, k, f);
  }

  lemma LastIn<A>(a: seq<A>, b: seq<A>)
    requires |a| > 0 && multiset(a) <= multiset(b)
    ensures a[|a| - 1] in b
  {
    assert a[|a| - 1] in multiset(a);
  }

  /** Mapping keeps multiset inclusion: mapping a sub-multiset gives a
      sub-multiset of the mapped whole. */
  lemma {:induction false} MapMultisetMono<A, B>(a: seq<A>, b: seq<A>, f: A -> B)
    requires multiset(a) <= multiset(b)
    ensures multiset(Map(a, f)) <= multiset(Map(b, f))
    decreases |a|
  {
    if |a| > 0 {
      LastIn(a, b);
      var k := IndexOf(b, a[|a| - 1]);
      MultisetRemoveLast(a, b, k);
      MapMultisetMono(a[..|a| - 1], b[..k] + b[k + 1..], f);
      MapMonoStep(a, b, k, f);
    }
  }

  /** `a` can be obtained from `b` by deleting elements. */
  predicate IsSubseq<T(==)>(a: seq<T>, b: seq<T>)
    decreases |b|
  {
    if |a| == 0 then true
    else if |b| == 0 then false
    else (a[0] == b[0] && IsSubseq(a[1..], b[1..])) || IsSubseq(a, b[1..])
  }

  lemma {:induction false} SubseqRefl<T>(a: seq<T>)
    ensures IsSubseq(a, a)
    decreases |a|
  {
    if |a| > 0 {
      SubseqRefl(a[1..]);
    }
  }

  lemma {:induction false} SubseqTrans<T>(a: seq<T>, b: seq<T>, c: seq<T>)
    requires IsSubseq(a, b) && IsSubseq(b, c)
    ensures IsSubseq(a, c)
    decreases |c|
  {
    if |a| > 0 {
      if b[0] == c[0] && IsSubseq(b[1..], c[1..]) {
        if a[0] == b[0] && IsSubseq(a[1..], b[1..]) {
          SubseqTrans(a[1..], b[1..], c[1..]);
        } else {
          SubseqTrans(a, b[1..], c[1..]);
        }
      } else {
        SubseqTrans(a, b, c[1..]);
      }
    }
  }

  /** Deleting elements never introduces a new one. */
  lemma {:induction false} SubseqMember<T>(a: seq<T>, b: seq<T>, x: T)
    requires IsSubseq(a, b) && x in a
    ensures x in b
    decreases |b|
  {
    if a[0] == b[0] && IsSubseq(a[1..], b[1..]) {
      if x != a[0] {
        SubseqMember(a[1..], b[1..], x);
      }
    } else {
      SubseqMember(a, b[1..], x);
    }
  }

  lemma {:induction false} FilterIsSubseq<T(!new)>(s: seq<T>, p: T -> bool)
    ensures IsSubseq(Filter(s, p), s)
    decreases |s|
  {
    if |s| > 0 {
      FilterIsSubseq(s[1..], p);
      var r := Filter(s, p);
      if p(s[0]) {
        assert r[0] == s[0] && r[1..] == Filter(s[1..], p);
      } else {
        assert r == Filter(s[1..], p);
      }
    }
  }

  /** Dropping a prefix keeps a subsequence. */
  lemma {:induction false} SuffixIsSubseq<T>(s: seq<T>, i: nat)
    requires i <= |s|
    ensures IsSubseq(s[i..], s)
    decreases i
  {
    if i == 0 {
      assert s[0..] == s;
      SubseqRefl(s);
    } else {
      SuffixIsSubseq(s[1..], i - 1);
      assert s[1..][i - 1..] == s[i..];
      if |s[i..]| > 0 {
        assert IsSubseq(s[i..], s[1..]);
      }
    }
  }

  /** Dropping a suffix keeps a subsequence. */
  lemma {:induction false} PrefixIsSubseq<T>(s: seq<T>, j: nat)
    requires j <= |s|
    ensures IsSubseq(s[..j], s)
    decreases j
  {
    if j > 0 {
      PrefixIsSubseq(s[1..], j - 1);
      assert s[1..][..j - 1] == s[..j][1..];
    }
  }

  lemma SliceIsSubseq<T>(s: seq<T>, i: nat, j: nat)
    requires i <= j <= |s|
    ensures IsSubseq(s[i..j], s)
  {
    PrefixIsSubseq(s[i..], j - i);
    assert s[i..][..j - i] == s[i..j];
    SuffixIsSubseq(s, i);
    SubseqTrans(s[i..j], s[i..], s);
  }

  /** No element occurs twice. */
  predicate NoDup<T(==)>(s: seq<T>) {
    forall i, j :: 0 <= i < j < |s| ==> s[i] != s[j]
  }

  /** Duplicate-freedom stated through multiplicities, so that it transfers
      along `multiset` inclusions (filters, permutations, sub-selections). */
  lemma {:induction false} NoDupCounts<T>(s: seq<T>)
    ensures NoDup(s) <==> forall x :: multiset(s)[x] <= 1
    decreases |s|
  {
    if |s| > 0 {
      NoDupCounts(s[1..]);
      assert s == [s[0]] + s[1..];
      assert multiset(s) == multiset{s[0]} + multiset(s[1..]);
      if NoDup(s) {
        assert NoDup(s[1..]) by {
          forall i, j | 0 <= i < j < |s[1..]| ensures s[1..][i] != s[1..][j] {
            assert s[1..][i] == s[i + 1] && s[1..][j] == s[j + 1];
          }
        }
        assert s[0] !in s[1..] by {
          forall k | 0 <= k < |s[1..]| ensures s[1..][k] != s[0] {
            assert s[1..][k] == s[k + 1];
          }
        }
      }
      if forall x :: multiset(s)[x] <= 1 {
        assert forall x :: multiset(s[1..])[x] <= 1 by {
          forall x ensures multiset(s[1..])[x] <= 1 {
            assert multiset(s)[x] <= 1;
          }
        }
        assert multiset(s[1..])[s[0]] == 0 by {
          assert multiset(s)[s[0]] <= 1;
        }
        forall i, j | 0 <= i < j < |s| ensures s[i] != s[j] {
          if i == 0 {
            assert s[j] == s[1..][j - 1];
          } else {
            assert s[i] == s[1..][i - 1] && s[j] == s[1..][j - 1];
          }
        }
      }
    }
  }

  lemma NoDupSub<T>(a: seq<T>, b: seq<T>)
    requires multiset(a) <= multiset(b) && NoDup(b)
    ensures NoDup(a)
  {
    NoDupCounts(b);
    forall x ensures multiset(a)[x] <= 1 {
      assert multiset(b)[x] <= 1;
    }
    NoDupCounts(a);
  }

  /** Strictly increasing: sorted and without duplicates. */
  predicate Increasing(s: seq<int>) {
    forall i, j :: 0 <= i < j < |s| ==> s[i] < s[j]
  }

  /** Two increasing runs, the first wholly below the second, concatenate
      to an increasing run. */
  lemma IncreasingAppend(a: seq<int>, b: seq<int>)
    requires Increasing(a) && Increasing(b)
    requires forall i, j :: 0 <= i < |a| && 0 <= j < |b| ==> a[i] < b[j]
    ensures Increasing(a + b)
  {
  }

  /** A value below every element of an increasing run may go in front. */
  lemma IncreasingCons(h: int, t: seq<int>)
    requires Increasing(t)
    requires forall y :: y in t ==> h < y
    ensures Increasing([h] + t)
  {
    var r := [h] + t;
    forall i, j | 0 <= i < j < |r| ensures r[i] < r[j] {
      assert r[j] == t[j - 1] && r[j] in t;
      if i > 0 {
        assert r[i] == t[i - 1];
      }
    }
  }

  lemma IncreasingTail(s: seq<int>)
    requires |s| > 0 && Increasing(s)
    ensures Increasing(s[1..]) && forall y :: y in s[1..] ==> s[0] < y
  {
    forall y | y in s[1..] ensures s[0] < y {
      var j :| 0 <= j < |s[1..]| && s[1..][j] == y;
      assert s[j + 1] == y;
    }
  }

  function InsertUnique(x: int, s: seq<int>): (r: seq<int>)
    requires Increasing(s)
    ensures Increasing(r)
    ensures forall y :: y in r <==> y == x || y in s
  {
    if |s| == 0 then [x]
    else if x < s[0] then
      IncreasingTail(s);
      IncreasingCons(x, s);
      [x] + s
    else if x == s[0] then s
    else
      IncreasingTail(s);
      var t := InsertUnique(x, s[1..]);
      IncreasingCons(s[0], t);
      [s[0]] + t
  }

  /** `sorted(set(xs))`: the distinct values of `xs` in ascending order. */
  function SortedUnique(xs: seq<int>): (r: seq<int>)
    ensures Increasing(r)
    ensures forall y :: y in r <==> y in xs
  {
    if |xs| == 0 then []
    else
      assert xs == [xs[0]] + xs[1..];
      InsertUnique(xs[0], SortedUnique(xs[1..]))
  }

  /** pandas `Series.unique()`: the distinct values in order of first
      appearance. */
  function Unique<T(==,!new)>(xs: seq<T>): (r: seq<T>)
    ensures NoDup(r)
    ensures forall y :: y in r <==> y in xs
    ensures forall i, j :: 0 <= i < j < |r| ==> IndexOf(xs, r[i]) < IndexOf(xs, r[j])
    decreases |xs|
  {
    if |xs| == 0 then []
    else
      var init := xs[..|xs| - 1];
      var last := xs[|xs| - 1];
      assert xs == init + [last];
      var r := Unique(init);
      IndexOfExtend(init, last);
      if last in r then r else r + [last]
  }

  /** Appending `x` to `s` keeps the first position of everything already in
      `s`, and puts a new `x` after all of them. */
  lemma IndexOfExtend<T>(s: seq<T>, x: T)
    ensures forall y :: y in s ==> IndexOf(s + [x], y) == IndexOf(s, y)
    ensures x !in s ==> IndexOf(s + [x], x) == |s|
  {
    forall y | y in s ensures IndexOf(s + [x], y) == IndexOf(s, y) {
      IndexOfPrefix(s, [x], y);
    }
  }

  lemma IndexOfCons<T>(a: T, t: seq<T>, z: T)
    requires z in t && z != a
    ensures IndexOf([a] + t, z) == 1 + IndexOf(t, z)
  {
    assert ([a] + t)[1..] == t;
  }

  lemma IndexOfTail<T>(s: seq<T>, z: T)
    requires z in s && s[0] != z
    ensures z in s[1..] && IndexOf(s, z) == 1 + IndexOf(s[1..], z)
  {
    assert s == [s[0]] + s[1..];
  }

  lemma {:induction false} IndexOfPrefix<T>(a: seq<T>, b: seq<T>, y: T)
    requires y in a
    ensures IndexOf(a + b, y) == IndexOf(a, y)
    decreases |a|
  {
    if a[0] != y {
      assert (a + b)[1..] == a[1..] + b;
      IndexOfPrefix(a[1..], b, y);
    }
  }

  /** Concatenation of a sequence of sequences (`pd.concat`). */
  function Concat<T>(ss: seq<seq<T>>): seq<T> {
    if |ss| == 0 then [] else ss[0] + Concat(ss[1..])
  }

  lemma {:induction false} ConcatAppend<T>(a: seq<seq<T>>, b: seq<seq<T>>)
    ensures Concat(a + b) == Concat(a) + Concat(b)
    decreases |a|
  {
    if |a| == 0 {
      assert a + b == b;
    } else {
      assert (a + b)[0] == a[0];
      assert (a + b)[1..] == a[1..] + b;
      ConcatAppend(a[1..], b);
    }
  }

  /** Position of the first occurrence of `x` in `s`. */
  function IndexOf<T(==)>(s: seq<T>, x: T): (i: nat)
    requires x in s
    ensures i < |s| && s[i] == x
    ensures forall k :: 0 <= k < i ==> s[k] != x
  {
    if s[0] == x then 0 else 1 + IndexOf(s[1..], x)
  }
}
