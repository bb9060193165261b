/** Permutations, sums and distinct counts of sequences. */
module Sequences {

  function Iota(n: nat): (s: seq<nat>)
    ensures |s| == n && forall i :: 0 <= i < n ==> s[i] == i
  {
    seq(n, i => i)
  }

  function Sum(s: seq<nat>): nat {
    if s == [] then 0 else s[0] + Sum(s[1..])
  }

  /** The members of `s` picked out by the indices `at`. */
  function Pick<T>(s: seq<T>, at: seq<nat>): (r: seq<T>)
    requires forall i :: 0 <= i < |at| ==> at[i] < |s|
    ensures |r| == |at| && forall i :: 0 <= i < |at| ==> r[i] == s[at[i]]
  {
    seq(|at|, i requires 0 <= i < |at| => s[at[i]])
  }

  ghost predicate IsPermutation(p: seq<nat>, n: nat) {
    multiset(p) == multiset(Iota(n))
  }

  lemma PermutationBasics(p: seq<nat>, n: nat)
    requires IsPermutation(p, n)
    ensures |p| == n
    ensures forall i :: 0 <= i < n ==> p[i] < n
    ensures forall j :: 0 <= j < n ==> j in p
    ensures forall i, j :: 0 <= i < j < n ==> p[i] != p[j]
  {
    assert |p| == |multiset(p)| == |multiset(Iota(n))| == n;
    forall i | 0 <= i < n ensures p[i] < n {
      assert p[i] in multiset(p);
      assert p[i] in multiset(Iota(n));
      assert p[i] in Iota(n);
    }
    forall j | 0 <= j < n ensures j in p {
      assert Iota(n)[j] == j;
      assert j in multiset(Iota(n));
      assert j in multiset(p);
    }
    forall i, j | 0 <= i < j < n ensures p[i] != p[j] {
      if p[i] == p[j] {
        TwiceInMultiset(p, i, j);
        IotaOnce(n, p[i]);
        assert false;
      }
    }
  }

  lemma TwiceInMultiset<T>(s: seq<T>, i: nat, j: nat)
    requires i < j < |s| && s[i] == s[j]
    ensures multiset(s)[s[i]] >= 2
  {
    assert s == s[..j] + s[j..];
    assert multiset(s) == multiset(s[..j]) + multiset(s[j..]);
    assert s[..j][i] in multiset(s[..j]);
    assert s[j..][0] in multiset(s[j..]);
  }

  lemma {:induction false} IotaOnce(n: nat, x: nat)
    ensures multiset(Iota(n))[x] <= 1
  {
    if n > 0 {
      IotaOnce(n - 1, x);
      assert Iota(n) == Iota(n - 1) + [n - 1];
      if x == n - 1 { assert x !in Iota(n - 1); }
    }
  }

  lemma RemoveKeepsMultiset<T>(s: seq<T>, k: nat)
    requires k < |s|
    ensures multiset(s[..k] + s[k + 1..]) == multiset(s) - multiset{s[k]}
  {
    assert s == s[..k] + [s[k]] + s[k + 1..];
  }

  function Without<T>(s: seq<T>, k: nat): (r: seq<T>)
    requires k < |s|
    ensures |r| == |s| - 1
    ensures forall i :: 0 <= i < |r| ==> r[i] == if i < k then s[i] else s[i + 1]
    ensures multiset(r) == multiset(s) - multiset{s[k]}
  {
    RemoveKeepsMultiset(s, k);
    s[..k] + s[k + 1..]
  }

  lemma PickWithout<T>(s: seq<T>, b: seq<nat>, k: nat)
    requires forall i :: 0 <= i < |b| ==> b[i] < |s|
    requires k < |b|
    ensures multiset(Pick(s, b)) == multiset(Pick(s, Without(b, k))) + multiset{s[b[k]]}
  {
    assert Pick(s, Without(b, k)) == Without(Pick(s, b), k);
    assert Pick(s, b)[k] in multiset(Pick(s, b));
  }

  lemma SameSize<T>(a: seq<T>, b: seq<T>)
    requires multiset(a) == multiset(b)
    ensures |a| == |b|
  {
    assert |a| == |multiset(a)| == |multiset(b)| == |b|;
  }

  lemma FindIn<T>(a: seq<T>, b: seq<T>) returns (k: nat)
    requires a != [] && multiset(a) == multiset(b)
    ensures k < |b| && b[k] == a[0]
    ensures multiset(Without(a, 0)) == multiset(Without(b, k))
  {
    assert a[0] in multiset(a);
    assert a[0] in multiset(b);
    k :| 0 <= k < |b| && b[k] == a[0];
  }

  lemma {:induction false} PickMultiset<T>(s: seq<T>, a: seq<nat>, b: seq<nat>)
    requires forall i :: 0 <= i < |a| ==> a[i] < |s|
    requires forall i :: 0 <= i < |b| ==> b[i] < |s|
    requires multiset(a) == multiset(b)
    ensures multiset(Pick(s, a)) == multiset(Pick(s, b))
    decreases |a|
  {
    SameSize(a, b);
    if a == [] {
      assert Pick(s, a) == Pick(s, b);
    } else {
      var k := FindIn(a, b);
      PickMultiset(s, Without(a, 0), Without(b, k));
      PickWithout(s, a, 0);
      PickWithout(s, b, k);
    }
  }

  lemma PickPermutation<T>(s: seq<T>, p: seq<nat>)
    requires IsPermutation(p, |s|)
    ensures |p| == |s| && forall i :: 0 <= i < |p| ==> p[i] < |s|
    ensures multiset(Pick(s, p)) == multiset(s)
  {
    PermutationBasics(p, |s|);
    PickMultiset(s, p, Iota(|s|));
    assert Pick(s, Iota(|s|)) == s;
  }

  lemma {:induction false} SumAppend(a: seq<nat>, b: seq<nat>)
    ensures Sum(a + b) == Sum(a) + Sum(b)
    decreases |a|
  {
    if a == [] {
      assert a + b == b;
    } else {
      SumAppend(a[1..], b);
      assert (a + b)[1..] == a[1..] + b;
    }
  }

  lemma SumSplit(s: seq<nat>, k: nat)
    requires k < |s|
    ensures Sum(s) == s[k] + Sum(s[..k] + s[k + 1..])
  {
    var after := s[k + 1..];
    assert s == s[..k] + ([s[k]] + after);
    assert ([s[k]] + after)[1..] == after;
    SumAppend(s[..k], [s[k]] + after);
    SumAppend(s[..k], after);
  }

  lemma SumWithout(s: seq<nat>, k: nat)
    requires k < |s|
    ensures Sum(s) == s[k] + Sum(Without(s, k))
  {
    hide Sum;
    SumSplit(s, k);
  }

  lemma {:induction false} SumPermuted(a: seq<nat>, b: seq<nat>)
    requires multiset(a) == multiset(b)
    ensures Sum(a) == Sum(b)
    decreases |a|
  {
    SameSize(a, b);
    if a != [] {
      var k := FindIn(a, b);
      SumPermuted(Without(a, 0), Without(b, k));
      SumWithout(a, 0);
      SumWithout(b, k);
    }
  }

  ghost predicate Sorted(s: seq<nat>) {
    forall i, j :: 0 <= i < j < |s| ==> s[i] <= s[j]
  }

  lemma SortedHead(a: seq<nat>, b: seq<nat>)
    requires Sorted(a) && Sorted(b) && multiset(a) == multiset(b) && a != []
    ensures |a| == |b| && a[0] == b[0]
  {
    SameSize(a, b);
    var k := FindIn(a, b);
    var l := FindIn(b, a);
  }

  lemma TailMultiset<T>(a: seq<T>)
    requires a != []
    ensures multiset(a[1..]) == multiset(a) - multiset{a[0]}
  {
    assert Without(a, 0) == a[1..];
  }

  /** A sorted sequence is determined by its multiset. */
  lemma {:induction false} SortedUnique(a: seq<nat>, b: seq<nat>)
    requires Sorted(a) && Sorted(b) && multiset(a) == multiset(b)
    ensures a == b
    decreases |a|
  {
    SameSize(a, b);
    if a != [] {
      SortedHead(a, b);
      TailMultiset(a);
      TailMultiset(b);
      SortedUnique(a[1..], b[1..]);
      assert a == [a[0]] + a[1..] && b == [b[0]] + b[1..];
    }
  }

  /** The number of different values in `s`. */
  ghost function Distinct<T>(s: seq<T>): nat {
    |set x | x in s|
  }

  lemma DistinctAtMostLength<T>(s: seq<T>)
    ensures Distinct(s) <= |s|
    ensures s != [] ==> Distinct(s) >= 1
  {
    if s != [] {
      var last := |s| - 1;
      DistinctAtMostLength(s[..last]);
      assert s == s[..last] + [s[last]];
      assert (set x | x in s) == (set x | x in s[..last]) + {s[last]};
    }
  }

  lemma DistinctSame<T>(a: seq<T>, b: seq<T>)
    requires forall x :: x in a <==> x in b
    ensures Distinct(a) == Distinct(b)
  {
    assert (set x | x in a) == (set x | x in b);
  }

  /** Strictly fewer classes than members when two members agree. */
  lemma DistinctFewer<T>(s: seq<T>, i: nat, j: nat)
    requires i < j < |s| && s[i] == s[j]
    ensures Distinct(s) < |s|
  {
    var t := s[..j] + s[j + 1..];
    DistinctAtMostLength(t);
    forall x | x in s ensures x in t {
      var k :| 0 <= k < |s| && s[k] == x;
      assert x == if k < j then t[k] else if k == j then t[i] else t[k - 1];
    }
    assert (set x | x in s) == (set x | x in t);
  }

  ghost predicate Refines<S, T>(fine: seq<S>, coarse: seq<T>) {
    && |fine| == |coarse|
    && forall i, j :: 0 <= i < |fine| && 0 <= j < |fine| && fine[i] == fine[j] ==> coarse[i] == coarse[j]
  }

  lemma DistinctSnoc<T>(s: seq<T>, x: T)
    ensures Distinct(s + [x]) == Distinct(s) + if x in s then 0 else 1
  {
    var before, after := (set y | y in s), (set y | y in s + [x]);
    assert after == before + {x};
    assert x in s <==> x in before;
    if x in before { assert after == before; }
  }

  /** A sequence that another refines has no more classes than it, and as
      many only when the two induce one partition. */
  lemma {:induction false} RefinesDistinct<S, T>(fine: seq<S>, coarse: seq<T>)
    requires Refines(fine, coarse)
    ensures Distinct(coarse) <= Distinct(fine)
    ensures Distinct(coarse) == Distinct(fine) ==> Refines(coarse, fine)
    decreases |fine|
  {
    if fine != [] {
      var last := |fine| - 1;
      var f, c := fine[..last], coarse[..last];
      RefinesDistinct(f, c);
      assert fine == f + [fine[last]] && coarse == c + [coarse[last]];
      DistinctSnoc(f, fine[last]);
      DistinctSnoc(c, coarse[last]);
      if fine[last] in f {
        var k :| 0 <= k < last && f[k] == fine[last];
        assert c[k] == coarse[last];
        if Distinct(c) == Distinct(f) { RefinesSnoc(f, c, fine[last], coarse[last], k); }
      }
    }
  }

  lemma RefinesSnoc<S, T>(fine: seq<S>, coarse: seq<T>, x: S, y: T, k: nat)
    requires Refines(coarse, fine)
    requires k < |fine| && fine[k] == x && coarse[k] == y
    ensures Refines(coarse + [y], fine + [x])
  {
  }
}
