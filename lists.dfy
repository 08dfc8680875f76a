/** Python list comprehensions and selections used across the services, on sequences. */
module Lists {
  import opened Wrappers

  /** `[x for x in s if p(x)]`. */
  function Filter<T>(s: seq<T>, p: T -> bool): (r: seq<T>)
    ensures |r| <= |s|
    decreases |s|
  {
    if s == [] then []
    else if p(s[|s| - 1]) then Filter(s[..|s| - 1], p) + [s[|s| - 1]]
    else Filter(s[..|s| - 1], p)
  }

  /** `r` is `s` with some elements left out, the rest kept in order. */
  predicate IsSubsequence<T(==)>(r: seq<T>, s: seq<T>)
    decreases |s|
  {
    if r == [] then true
    else if s == [] then false
    else if r[|r| - 1] == s[|s| - 1] then IsSubsequence(r[..|r| - 1], s[..|s| - 1])
    else IsSubsequence(r, s[..|s| - 1])
  }

  /** What the comprehension keeps: exactly the elements of `s` that satisfy `p`. */
  lemma {:induction false} FilterMembership<T>(s: seq<T>, p: T -> bool, x: T)
    ensures x in Filter(s, p) <==> x in s && p(x)
    decreases |s|
  {
    if s != [] {
      FilterMembership(s[..|s| - 1], p, x);
      assert s == s[..|s| - 1] + [s[|s| - 1]];
    }
  }

  /** The comprehension keeps the order of `s`. */
  lemma {:induction false} FilterIsSubsequence<T>(s: seq<T>, p: T -> bool)
    ensures IsSubsequence(Filter(s, p), s)
    decreases |s|
  {
    if s != [] {
      FilterIsSubsequence(s[..|s| - 1], p);
      var f := Filter(s[..|s| - 1], p);
      if p(s[|s| - 1]) {
        assert (f + [s[|s| - 1]])[..|f|] == f;
      } else {
        if f != [] && f[|f| - 1] == s[|s| - 1] {
          SubsequenceDropLast(f, s[..|s| - 1]);
        }
      }
    }
  }

  lemma {:induction false} SubsequenceDropLast<T>(r: seq<T>, s: seq<T>)
    requires r != [] && IsSubsequence(r, s)
    ensures IsSubsequence(r[..|r| - 1], s)
    decreases |s|, 1
  {
    if r[|r| - 1] == s[|s| - 1] {
      SubsequenceWeaken(r[..|r| - 1], s);
    } else {
      SubsequenceDropLast(r, s[..|s| - 1]);
      SubsequenceWeaken(r[..|r| - 1], s);
    }
  }

  /** A subsequence of a prefix is a subsequence of the whole (one element longer). */
  lemma {:induction false} SubsequenceWeaken<T>(r: seq<T>, s: seq<T>)
    requires s != [] && IsSubsequence(r, s[..|s| - 1])
    ensures IsSubsequence(r, s)
    decreases |s|, 0
  {
    if r != [] && r[|r| - 1] == s[|s| - 1] {
      SubsequenceDropLast(r, s[..|s| - 1]);
    }
  }

  /** The last index whose element satisfies `p`, if any. */
  function LastIndexWhere<T>(s: seq<T>, p: T -> bool): (r: Option<nat>)
    ensures r.Some? ==> r.value < |s| && p(s[r.value])
    ensures r.Some? ==> forall j :: r.value < j < |s| ==> !p(s[j])
    ensures r.None? ==> forall j :: 0 <= j < |s| ==> !p(s[j])
    decreases |s|
  {
    if s == [] then None
    else if p(s[|s| - 1]) then Some(|s| - 1)
    else LastIndexWhere(s[..|s| - 1], p)
  }

  /** `[x for x in s if p(x)][-1]` is the element at the last index satisfying `p`. */
  lemma {:induction false} FilterLast<T>(s: seq<T>, p: T -> bool)
    ensures Filter(s, p) != [] <==> LastIndexWhere(s, p).Some?
    ensures Filter(s, p) != [] ==> Filter(s, p)[|Filter(s, p)| - 1] == s[LastIndexWhere(s, p).value]
    decreases |s|
  {
    if s != [] && !p(s[|s| - 1]) {
      FilterLast(s[..|s| - 1], p);
    }
  }

  /** An index whose element satisfies `p`, with no later one that does, is the last such
      index, and `[x for x in s if p(x)][-1]` is its element. */
  lemma LastWhereAt<T>(s: seq<T>, p: T -> bool, k: nat)
    requires k < |s| && p(s[k])
    requires forall j :: k < j < |s| ==> !p(s[j])
    ensures LastIndexWhere(s, p) == Some(k)
    ensures Filter(s, p) != [] && Filter(s, p)[|Filter(s, p)| - 1] == s[k]
  {
    FilterLast(s, p);
  }

  /** The values inside the `Some`s, in order (the results that were actually produced). */
  function Successes<T>(s: seq<Option<T>>): (r: seq<T>)
    ensures |r| <= |s|
    decreases |s|
  {
    if s == [] then []
    else if s[|s| - 1].Some? then Successes(s[..|s| - 1]) + [s[|s| - 1].value]
    else Successes(s[..|s| - 1])
  }

  /** The number of `Some`s. */
  function CountSome<T>(s: seq<Option<T>>): nat
    decreases |s|
  {
    if s == [] then 0 else CountSome(s[..|s| - 1]) + (if s[|s| - 1].Some? then 1 else 0)
  }

  /** A failed unit removes only its own entry: one success per `Some`. */
  lemma {:induction false} SuccessesCount<T>(s: seq<Option<T>>)
    ensures |Successes(s)| == CountSome(s)
    decreases |s|
  {
    if s != [] {
      SuccessesCount(s[..|s| - 1]);
    }
  }

  lemma {:induction false} SuccessesAppend<T>(a: seq<Option<T>>, b: seq<Option<T>>)
    ensures Successes(a + b) == Successes(a) + Successes(b)
    decreases |b|
  {
    if b != [] {
      assert (a + b)[..|a + b| - 1] == a + b[..|b| - 1];
      SuccessesAppend(a, b[..|b| - 1]);
    } else {
      assert a + b == a;
    }
  }

  /** With `k` units of which exactly one fails, `k - 1` results remain. */
  lemma OneFailureDropsOne<T>(s: seq<Option<T>>, bad: nat)
    requires bad < |s| && s[bad].None?
    requires forall j :: 0 <= j < |s| && j != bad ==> s[j].Some?
    ensures |Successes(s)| == |s| - 1
  {
    CountAllButOne(s, bad);
    SuccessesCount(s);
  }

  lemma {:induction false} CountAllButOne<T>(s: seq<Option<T>>, bad: nat)
    requires bad < |s| && s[bad].None?
    requires forall j :: 0 <= j < |s| && j != bad ==> s[j].Some?
    ensures CountSome(s) == |s| - 1
    decreases |s|
  {
    if bad < |s| - 1 {
      CountAllButOne(s[..|s| - 1], bad);
    } else {
      CountAllSome(s[..|s| - 1]);
    }
  }

  lemma {:induction false} CountAllSome<T>(s: seq<Option<T>>)
    requires forall j :: 0 <= j < |s| ==> s[j].Some?
    ensures CountSome(s) == |s|
    decreases |s|
  {
    if s != [] {
      CountAllSome(s[..|s| - 1]);
    }
  }

  /** `p` is a permutation of `0 .. n-1`. */
  predicate IsPermutation(p: seq<nat>, n: nat)
  {
    |p| == n && (forall i :: 0 <= i < n ==> p[i] < n)
    && (forall i, j :: 0 <= i < j < n ==> p[i] != p[j])
  }

  function Identity(n: nat): (r: seq<nat>)
    ensures |r| == n && forall i :: 0 <= i < n ==> r[i] == i
  {
    seq(n, i => i)
  }

  lemma IdentityIsPermutation(n: nat)
    ensures IsPermutation(Identity(n), n)
  {
  }

  /** `s` reordered by the permutation `p`. */
  function Permute<T>(s: seq<T>, p: seq<nat>): (r: seq<T>)
    requires IsPermutation(p, |s|)
    ensures |r| == |s| && forall i :: 0 <= i < |s| ==> r[i] == s[p[i]]
  {
    seq(|s|, i requires 0 <= i < |s| => s[p[i]])
  }

  /** The indices below `n`. */
  function Below(n: nat): set<nat>
    decreases n
  {
    if n == 0 then {} else Below(n - 1) + {n - 1}
  }

  /** The first `m` entries of `p`, as a set. */
  function Image(p: seq<nat>, m: nat): set<nat>
    requires m <= |p|
  {
    set i | 0 <= i < m :: p[i]
  }

  lemma {:induction false} BelowFacts(n: nat)
    ensures |Below(n)| == n && forall k: nat :: k in Below(n) <==> k < n
    decreases n
  {
    if n > 0 {
      BelowFacts(n - 1);
      assert n - 1 !in Below(n - 1);
    }
  }

  lemma {:induction false} ImageSize(p: seq<nat>, n: nat, m: nat)
    requires IsPermutation(p, n) && m <= n
    ensures |Image(p, m)| == m
    decreases m
  {
    if m > 0 {
      assert Image(p, m) == Image(p, m - 1) + {p[m - 1]};
      assert p[m - 1] !in Image(p, m - 1);
      ImageSize(p, n, m - 1);
    } else {
      assert Image(p, m) == {};
    }
  }

  lemma {:induction false} SubsetSize(a: set<nat>, b: set<nat>)
    requires a <= b
    ensures |a| <= |b|
    decreases |b|
  {
    if b != {} {
      var x :| x in b;
      SubsetSize(a - {x}, b - {x});
    }
  }

  /** A permutation of `0..n-1` takes every value below `n`. */
  lemma PermutationCovers(p: seq<nat>, n: nat, k: nat)
    requires IsPermutation(p, n) && k < n
    ensures exists i :: 0 <= i < n && p[i] == k
  {
    ImageSize(p, n, n);
    BelowFacts(n);
    if k !in Image(p, n) {
      assert Image(p, n) <= Below(n) - {k};
      assert |Below(n) - {k}| == n - 1;
      SubsetSize(Image(p, n), Below(n) - {k});
      assert false;
    }
  }

  /** Reordering keeps exactly the elements. */
  lemma PermuteMember<T>(s: seq<T>, p: seq<nat>, x: T)
    requires IsPermutation(p, |s|)
    ensures x in Permute(s, p) <==> x in s
  {
    if x in s {
      var k :| 0 <= k < |s| && s[k] == x;
      PermutationCovers(p, |s|, k);
      var i :| 0 <= i < |s| && p[i] == k;
      assert Permute(s, p)[i] == x;
    }
  }

  /** A produced value is the content of one of the `Some`s. */
  lemma {:induction false} SuccessesMember<T>(s: seq<Option<T>>, x: T)
    ensures x in Successes(s) <==> Some(x) in s
    decreases |s|
  {
    if s != [] {
      SuccessesMember(s[..|s| - 1], x);
      assert s == s[..|s| - 1] + [s[|s| - 1]];
    }
  }

  /** `[f(x) for x in s]`. */
  function Map<A, B>(s: seq<A>, f: A -> B): (r: seq<B>)
    ensures |r| == |s| && forall i :: 0 <= i < |s| ==> r[i] == f(s[i])
  {
    seq(|s|, i requires 0 <= i < |s| => f(s[i]))
  }

  lemma MapSnoc<A, B>(s: seq<A>, x: A, f: A -> B)
    ensures Map(s + [x], f) == Map(s, f) + [f(x)]
  {
  }

  /** Some element of `s` satisfies `q` exactly when one of all but the last does, or the last. */
  lemma ExistsSnoc<T>(s: seq<T>, init: seq<T>, q: T -> bool)
    requires s != [] && init == s[..|s| - 1]
    ensures (exists i :: 0 <= i < |s| && q(s[i])) <==>
            (exists i :: 0 <= i < |init| && q(init[i])) || q(s[|s| - 1])
  {
    if exists i :: 0 <= i < |s| && q(s[i]) {
      var i :| 0 <= i < |s| && q(s[i]);
      if i < |init| {
        assert init[i] == s[i];
      }
    }
    if exists i :: 0 <= i < |init| && q(init[i]) {
      var i :| 0 <= i < |init| && q(init[i]);
      assert s[i] == init[i];
    }
  }
}
