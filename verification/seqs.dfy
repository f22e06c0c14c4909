/**
 * The Kotlin collection operations the core uses (`filter`, `count`,
 * `groupingBy { }.eachCount()`), stated over sequences. Every builder is
 * defined by recursion on the LAST element, the order in which a Kotlin loop
 * appends, so that a loop invariant is a statement about a prefix.
 */
module Seqs {
  import opened Wrappers

  /** `s.filter(p)`: the elements satisfying `p`, in their original order. */
  function Filter<T>(s: seq<T>, p: T -> bool): (r: seq<T>)
    ensures |r| <= |s|
    ensures forall i :: 0 <= i < |r| ==> p(r[i])
  {
    if s == [] then []
    else Filter(s[..|s| - 1], p) + (if p(s[|s| - 1]) then [s[|s| - 1]] else [])
  }

  /** One loop step: filtering a prefix one element longer appends at most that element. */
  lemma FilterStep<T>(s: seq<T>, i: nat, p: T -> bool)
    requires i < |s|
    ensures Filter(s[..i + 1], p) == Filter(s[..i], p) + (if p(s[i]) then [s[i]] else [])
  {
    assert s[..i + 1][..i] == s[..i];
  }

  /** Filtering distributes over concatenation: the order of the kept elements is the original order. */
  lemma {:induction false} FilterAppend<T>(a: seq<T>, b: seq<T>, p: T -> bool)
    ensures Filter(a + b, p) == Filter(a, p) + Filter(b, p)
  {
    if b == [] {
      assert a + b == a;
    } else {
      var b' := b[..|b| - 1];
      assert (a + b)[..|a + b| - 1] == a + b';
      FilterAppend(a, b', p);
    }
  }

  /** Filtering a list with one more element in front. */
  lemma FilterPrepend<T>(x: T, s: seq<T>, p: T -> bool)
    ensures Filter([x] + s, p) == (if p(x) then [x] else []) + Filter(s, p)
  {
    assert Filter([x], p) == (if p(x) then [x] else []) by {
      assert [x][..0] == [];
    }
    FilterAppend([x], s, p);
  }

  /** Filtering a list around one of its elements. */
  lemma FilterAround<T>(a: seq<T>, x: T, b: seq<T>, p: T -> bool)
    ensures Filter(a + [x] + b, p) == Filter(a, p) + (if p(x) then [x] else []) + Filter(b, p)
  {
    FilterPrepend(x, b, p);
    assert a + [x] + b == a + ([x] + b);
    FilterAppend(a, [x] + b, p);
  }

  /** Exactly the elements satisfying `p` are kept, each as often as it occurs. */
  lemma {:induction false} FilterCount<T>(s: seq<T>, p: T -> bool, x: T)
    ensures multiset(Filter(s, p))[x] == if p(x) then multiset(s)[x] else 0
  {
    if s != [] {
      var s' := s[..|s| - 1];
      FilterCount(s', p, x);
      assert s == s' + [s[|s| - 1]];
    }
  }

  /** Membership form of FilterCount. */
  lemma FilterMembership<T>(s: seq<T>, p: T -> bool, x: T)
    ensures x in Filter(s, p) <==> x in s && p(x)
  {
    FilterCount(s, p, x);
    assert x in Filter(s, p) <==> multiset(Filter(s, p))[x] > 0;
    assert x in s <==> multiset(s)[x] > 0;
  }

  /** A predicate that holds of every element filters nothing out. */
  lemma {:induction false} FilterAll<T>(s: seq<T>, p: T -> bool)
    requires forall i :: 0 <= i < |s| ==> p(s[i])
    ensures Filter(s, p) == s
  {
    if s != [] {
      FilterAll(s[..|s| - 1], p);
    }
  }

  /** Applying the same filter twice is applying it once. */
  lemma FilterIdempotent<T>(s: seq<T>, p: T -> bool)
    ensures Filter(Filter(s, p), p) == Filter(s, p)
  {
    FilterAll(Filter(s, p), p);
  }

  /** `s.flatMap(f)`: what `f` gives for each element, concatenated in order. */
  function FlatMap<T, U>(s: seq<T>, f: T -> seq<U>): seq<U> {
    if s == [] then [] else FlatMap(s[..|s| - 1], f) + f(s[|s| - 1])
  }

  /** One loop step: a prefix one element longer appends that element's results. */
  lemma FlatMapStep<T, U>(s: seq<T>, i: nat, f: T -> seq<U>)
    requires i < |s|
    ensures FlatMap(s[..i + 1], f) == FlatMap(s[..i], f) + f(s[i])
  {
    assert s[..i + 1][..i] == s[..i];
  }

  /** FlatMap distributes over concatenation. */
  lemma {:induction false} FlatMapAppend<T, U>(a: seq<T>, b: seq<T>, f: T -> seq<U>)
    ensures FlatMap(a + b, f) == FlatMap(a, f) + FlatMap(b, f)
  {
    if b == [] {
      assert a + b == a;
    } else {
      var b' := b[..|b| - 1];
      assert (a + b)[..|a + b| - 1] == a + b';
      FlatMapAppend(a, b', f);
    }
  }

  /** FlatMap around one element: what comes before it, its own results, what comes after it. */
  lemma FlatMapSplit<T, U>(s: seq<T>, f: T -> seq<U>, i: nat)
    requires i < |s|
    ensures FlatMap(s, f) == FlatMap(s[..i], f) + f(s[i]) + FlatMap(s[i + 1..], f)
  {
    assert s == s[..i + 1] + s[i + 1..];
    FlatMapAppend(s[..i + 1], s[i + 1..], f);
    FlatMapStep(s, i, f);
  }

  /** An element without results can be left out. */
  lemma FlatMapSkipOne<T, U>(s: seq<T>, f: T -> seq<U>, i: nat)
    requires i < |s| && f(s[i]) == []
    ensures FlatMap(s, f) == FlatMap(s[..i], f) + FlatMap(s[i + 1..], f)
  {
    FlatMapSplit(s, f, i);
    assert FlatMap(s[..i], f) + [] == FlatMap(s[..i], f);
  }

  /** Elements whose results are empty can be filtered out beforehand without changing the outcome. */
  lemma {:induction false} FlatMapSkip<T, U>(s: seq<T>, f: T -> seq<U>, p: T -> bool)
    requires forall i :: 0 <= i < |s| && !p(s[i]) ==> f(s[i]) == []
    ensures FlatMap(s, f) == FlatMap(Filter(s, p), f)
  {
    if s != [] {
      var init := s[..|s| - 1];
      var last := s[|s| - 1];
      FlatMapSkip(init, f, p);
      assert Filter(s, p) == Filter(init, p) + (if p(last) then [last] else []);
      if p(last) {
        FlatMapAppend(Filter(init, p), [last], f);
        assert [last][..0] == [];
        assert FlatMap([last], f) == f(last);
      } else {
        assert Filter(init, p) + [] == Filter(init, p);
      }
    }
  }

  /** Every result comes from one element: the `l`-th result of the `k`-th element. */
  lemma {:induction false} FlatMapOrigin<T, U>(s: seq<T>, f: T -> seq<U>, j: nat)
    requires j < |FlatMap(s, f)|
    ensures exists k, l :: 0 <= k < |s| && 0 <= l < |f(s[k])| && FlatMap(s, f)[j] == f(s[k])[l]
  {
    var init := s[..|s| - 1];
    var front := FlatMap(init, f);
    if j < |front| {
      FlatMapOrigin(init, f, j);
      var k, l :| 0 <= k < |init| && 0 <= l < |f(init[k])| && front[j] == f(init[k])[l];
      assert s[k] == init[k];
    } else {
      var k := |s| - 1;
      assert FlatMap(s, f)[j] == f(s[k])[j - |front|];
    }
  }

  /** `s.count { key(it) == k }`. */
  function CountKey<T, K(==)>(s: seq<T>, key: T -> K, k: K): (n: nat)
    ensures n <= |s|
    ensures n > 0 <==> exists i :: 0 <= i < |s| && key(s[i]) == k
  {
    if s == [] then 0
    else CountKey(s[..|s| - 1], key, k) + (if key(s[|s| - 1]) == k then 1 else 0)
  }

  /** Counting a key over a non-empty list: the count over all but the last element, plus the last. */
  lemma CountKeyLast<T, K>(s: seq<T>, key: T -> K, k: K)
    requires s != []
    ensures CountKey(s, key, k) == CountKey(s[..|s| - 1], key, k) + (if key(s[|s| - 1]) == k then 1 else 0)
  {
  }

  /**
   * `s.groupingBy(key).eachCount()`: a key is present exactly when some element
   * has it, and maps to the number of such elements.
   */
  function CountBy<T, K(==, !new)>(s: seq<T>, key: T -> K): (m: map<K, nat>)
    ensures forall k :: k in m <==> CountKey(s, key, k) > 0
    ensures forall k :: k in m ==> m[k] == CountKey(s, key, k)
  {
    if s == [] then map[]
    else
      var m := CountBy(s[..|s| - 1], key);
      var k := key(s[|s| - 1]);
      m[k := (if k in m then m[k] else 0) + 1]
  }

  /** The count of a key in a map produced by CountBy (0 when absent). */
  function Tally<K>(m: map<K, nat>, k: K): nat {
    if k in m then m[k] else 0
  }

  /** Counting a key over a concatenation adds the counts of the parts. */
  lemma {:induction false} CountKeyAppend<T, K>(a: seq<T>, b: seq<T>, key: T -> K, k: K)
    ensures CountKey(a + b, key, k) == CountKey(a, key, k) + CountKey(b, key, k)
  {
    if b == [] {
      assert a + b == a;
    } else {
      var b' := b[..|b| - 1];
      assert (a + b)[..|a + b| - 1] == a + b';
      CountKeyAppend(a, b', key, k);
    }
  }

  /** When every element yields at most one result, there are at most as many results as elements. */
  lemma {:induction false} FlatMapAtMostOne<T, U>(s: seq<T>, f: T -> seq<U>)
    requires forall i :: 0 <= i < |s| ==> |f(s[i])| <= 1
    ensures |FlatMap(s, f)| <= |s|
  {
    if s != [] {
      FlatMapAtMostOne(s[..|s| - 1], f);
    }
  }

  /** When every element yields exactly one result, results and elements correspond one to one. */
  lemma {:induction false} FlatMapExactlyOne<T, U>(s: seq<T>, f: T -> seq<U>)
    requires forall i :: 0 <= i < |s| ==> |f(s[i])| == 1
    ensures |FlatMap(s, f)| == |s|
    ensures forall i :: 0 <= i < |s| ==> FlatMap(s, f)[i] == f(s[i])[0]
  {
    if s != [] {
      var init := s[..|s| - 1];
      FlatMapExactlyOne(init, f);
      forall i | 0 <= i < |s|
        ensures FlatMap(s, f)[i] == f(s[i])[0]
      {
        if i < |init| {
          assert s[i] == init[i];
        }
      }
    }
  }

  /** `s.indexOfFirst(p)`, as an option: the first position whose element satisfies `p`. */
  function IndexWhere<T>(s: seq<T>, p: T -> bool): (r: Option<nat>)
    ensures r.Some? ==> r.value < |s| && p(s[r.value]) && forall j :: 0 <= j < r.value ==> !p(s[j])
    ensures r.None? ==> forall j :: 0 <= j < |s| ==> !p(s[j])
  {
    if s == [] then None
    else if p(s[0]) then Some(0)
    else
      match IndexWhere(s[1..], p)
      case None => None
      case Some(k) => Some(k + 1)
  }

  /** `s.find(p)`: the first element satisfying `p`, if any. */
  function Find<T>(s: seq<T>, p: T -> bool): (r: Option<T>)
    ensures r.None? <==> forall j :: 0 <= j < |s| ==> !p(s[j])
    ensures r.Some? ==> exists k :: 0 <= k < |s| && s[k] == r.value && p(s[k]) && forall j :: 0 <= j < k ==> !p(s[j])
  {
    match IndexWhere(s, p)
    case None => None
    case Some(k) => Some(s[k])
  }

  /** The first element satisfying `p` is what Find returns. */
  lemma FindFirst<T>(s: seq<T>, p: T -> bool, k: nat)
    requires k < |s| && p(s[k])
    requires forall j :: 0 <= j < k ==> !p(s[j])
    ensures Find(s, p) == Some(s[k])
  {
    var k' :| 0 <= k' < |s| && s[k'] == Find(s, p).value && p(s[k']) && forall j :: 0 <= j < k' ==> !p(s[j]);
    assert k' == k;
  }

  /** A prefix that runs past index `j` is the part before `j`, the element at `j`, and the part after it. */
  lemma PrefixAround<T>(s: seq<T>, j: nat, n: nat)
    requires j < n <= |s|
    ensures s[..n] == s[..j] + [s[j]] + s[j + 1..n]
  {
  }

  /** The parts of `a + [x] + b`: `a` before index `|a|`, `x` at it, `b` after it. */
  lemma AroundParts<T>(a: seq<T>, x: T, b: seq<T>)
    ensures var s := a + [x] + b;
            && s[..|a|] == a && s[|a|] == x && s[|a| + 1..] == b
            && forall m :: |a| < m < |s| ==> s[m] == b[m - |a| - 1]
  {
  }

  /** An element that no index from `j` on holds is not in the suffix from `j`. */
  lemma NotInSuffix<T>(s: seq<T>, j: nat, x: T)
    requires j <= |s|
    requires forall k :: j <= k < |s| ==> s[k] != x
    ensures x !in s[j..]
  {
    var after := s[j..];
    forall k | 0 <= k < |after|
      ensures after[k] != x
    {
      assert after[k] == s[j + k];
    }
  }
}
