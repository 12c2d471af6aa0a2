/** Sequence vocabulary shared by the components: distinctness, counting,
    first-seen deduplication, index permutations and gathering by index. */
module Seqs {

  /** No element occurs twice. */
  predicate Distinct<T(==)>(s: seq<T>) {
    forall i, j :: 0 <= i < j < |s| ==> s[i] != s[j]
  }

  /** Number of occurrences of `x` in `s` (numpy's `np.sum(data == x)`). */
  function Count<T(==)>(s: seq<T>, x: T): nat {
    if s == [] then 0 else Count(s[..|s| - 1], x) + (if s[|s| - 1] == x then 1 else 0)
  }

  /** The elements of `s`, each once, in the order of their first occurrence:
      the list a script grows with `if v not in seen: seen += [v]`. */
  function Dedup<T(==)>(s: seq<T>): (d: seq<T>)
    ensures Distinct(d)
    ensures forall i :: 0 <= i < |s| ==> s[i] in d
    ensures forall i :: 0 <= i < |d| ==> d[i] in s
  {
    if s == [] then []
    else
      var p := Dedup(s[..|s| - 1]);
      if s[|s| - 1] in p then p else p + [s[|s| - 1]]
  }

  /** Dropping the head of a sequence built from it. */
  lemma DropCons<T>(x: T, s: seq<T>) ensures ([x] + s)[1..] == s {}

  /** A longer prefix is the shorter one and the next element. */
  lemma TakeSnoc<T>(s: seq<T>, k: nat)
    requires k < |s|
    ensures s[..k + 1] == s[..k] + [s[k]]
  {}

  /** Deduplicating one more element appends it unless already seen. */
  lemma DedupSnoc<T>(s: seq<T>, x: T)
    ensures Dedup(s + [x]) == if x in Dedup(s) then Dedup(s) else Dedup(s) + [x]
  {
    assert (s + [x])[..|s|] == s;
  }

  /** An element that occurs is counted at least once. */
  lemma {:induction false} CountOccurs<T>(s: seq<T>, x: T)
    requires x in s
    ensures Count(s, x) > 0
  {
    if s[|s| - 1] != x {
      assert s == s[..|s| - 1] + [s[|s| - 1]];
      CountOccurs(s[..|s| - 1], x);
    }
  }

  /** An element not in a list is counted zero times. */
  lemma {:induction false} CountAbsent<T>(s: seq<T>, x: T)
    requires x !in s
    ensures Count(s, x) == 0
  {
    if s != [] {
      assert x !in s[..|s| - 1];
      CountAbsent(s[..|s| - 1], x);
    }
  }

  /** The deduplicated sequence holds exactly the elements of the original. */
  lemma DedupMembers<T>(s: seq<T>)
    ensures forall x :: x in Dedup(s) <==> x in s
  {
    var d := Dedup(s);
    forall x ensures x in d <==> x in s {
      if x in d {
        var i :| 0 <= i < |d| && d[i] == x;
      }
      if x in s {
        var i :| 0 <= i < |s| && s[i] == x;
      }
    }
  }

  /** A non-empty set has an element. */
  lemma NonEmptyHasElement<T>(s: set<T>)
    requires s != {}
    ensures exists x :: x in s
  {
    if forall x :: x !in s {
    }
  }

  /** `list(range(n))`. */
  function Range(n: nat): (r: seq<nat>)
    ensures |r| == n && forall k :: 0 <= k < n ==> r[k] == k
  {
    seq(n, k => k)
  }

  /** `p` lists each of 0 .. n-1 exactly once. */
  predicate IsPermutation(p: seq<nat>, n: nat) {
    |p| == n && Distinct(p) && forall k :: 0 <= k < |p| ==> p[k] < n
  }

  /** numpy fancy indexing `x[idx]`, and `[x[i] for i in idx]`. */
  function Gather<T>(x: seq<T>, idx: seq<nat>): (g: seq<T>)
    requires forall k :: 0 <= k < |idx| ==> idx[k] < |x|
    ensures |g| == |idx| && forall k :: 0 <= k < |idx| ==> g[k] == x[idx[k]]
  {
    seq(|idx|, k requires 0 <= k < |idx| => x[idx[k]])
  }

  /** Removing one position keeps the remaining elements distinct. */
  lemma DistinctRemove<T>(s: seq<T>, k: nat)
    requires Distinct(s) && k < |s|
    ensures Distinct(s[..k] + s[k + 1..])
    ensures forall x :: x in s[..k] + s[k + 1..] ==> x in s && x != s[k]
  {
    var r := s[..k] + s[k + 1..];
    forall i, j | 0 <= i < j < |r| ensures r[i] != r[j] {
      var i' := if i < k then i else i + 1;
      var j' := if j < k then j else j + 1;
      assert r[i] == s[i'] && r[j] == s[j'] && i' < j';
    }
    forall x | x in r ensures x in s && x != s[k] {
      var i :| 0 <= i < |r| && r[i] == x;
      var i' := if i < k then i else i + 1;
      assert r[i] == s[i'] && i' != k;
    }
  }

  /** A distinct sequence over 0 .. n-1 shorter than n misses some value. */
  lemma {:induction false} Pigeonhole(p: seq<nat>, n: nat)
    requires Distinct(p) && |p| < n
    requires forall k :: 0 <= k < |p| ==> p[k] < n
    ensures exists c :: 0 <= c < n && c !in p
  {
    if n - 1 in p {
      var k :| 0 <= k < |p| && p[k] == n - 1;
      var q := p[..k] + p[k + 1..];
      DistinctRemove(p, k);
      forall j | 0 <= j < |q| ensures q[j] < n - 1 {
        assert q[j] in q;
      }
      Pigeonhole(q, n - 1);
      var c :| 0 <= c < n - 1 && c !in q;
      assert c !in p;
    } else {
      assert n - 1 !in p;
    }
  }

  /** A distinct sequence over 0 .. n-1 has at most n elements. */
  lemma {:induction false} DistinctBound(p: seq<nat>, n: nat)
    requires Distinct(p)
    requires forall k :: 0 <= k < |p| ==> p[k] < n
    ensures |p| <= n
  {
    if n == 0 {
    } else if n - 1 in p {
      var k :| 0 <= k < |p| && p[k] == n - 1;
      var q := p[..k] + p[k + 1..];
      DistinctRemove(p, k);
      forall j | 0 <= j < |q| ensures q[j] < n - 1 {
        assert q[j] in q;
      }
      DistinctBound(q, n - 1);
    } else {
      forall j | 0 <= j < |p| ensures p[j] < n - 1 {
        assert p[j] in p;
      }
      DistinctBound(p, n - 1);
    }
  }

  /** A permutation of 0 .. n-1 visits every one of them. */
  lemma {:induction false} PermutationCovers(p: seq<nat>, n: nat)
    requires IsPermutation(p, n)
    ensures forall c :: 0 <= c < n ==> c in p
  {
    forall c | 0 <= c < n ensures c in p {
      if c !in p {
        var q := p + [c];
        assert Distinct(q);
        DistinctBound(q, n);
      }
    }
  }

  /** Taking the largest value n-1 out of a permutation of 0 .. n-1 leaves one of 0 .. n-2. */
  lemma RemoveLargest(idx: seq<nat>, n: nat, j: nat)
    requires IsPermutation(idx, n) && j < n && idx[j] == n - 1
    ensures IsPermutation(idx[..j] + idx[j + 1..], n - 1)
  {
    var rest := idx[..j] + idx[j + 1..];
    DistinctRemove(idx, j);
    forall k | 0 <= k < |rest| ensures rest[k] < n - 1 {
      assert rest[k] in rest;
    }
  }

  /** Gathering through a permutation whose position j holds the last index. */
  lemma GatherSplit<T>(x: seq<T>, idx: seq<nat>, j: nat)
    requires IsPermutation(idx, |x|) && j < |x| && idx[j] == |x| - 1
    requires IsPermutation(idx[..j] + idx[j + 1..], |x| - 1)
    ensures Gather(x, idx)
         == Gather(x[..|x| - 1], idx[..j] + idx[j + 1..])[..j] + [x[|x| - 1]]
          + Gather(x[..|x| - 1], idx[..j] + idx[j + 1..])[j..]
  {
  }

  /** Inserting one value anywhere adds it to the multiset. */
  lemma MultisetInsert<T>(a: seq<T>, v: T, j: nat)
    requires j <= |a|
    ensures multiset(a[..j] + [v] + a[j..]) == multiset(a) + multiset{v}
  {
    assert a == a[..j] + a[j..];
  }

  /** Reordering by a permutation keeps exactly the same values. */
  lemma {:induction false} GatherPermutation<T>(x: seq<T>, idx: seq<nat>)
    requires IsPermutation(idx, |x|)
    ensures multiset(Gather(x, idx)) == multiset(x)
  {
    var n := |x|;
    if n == 0 {
      assert Gather(x, idx) == [];
    } else {
      var j: nat :| j < n && idx[j] == n - 1 by {
        PermutationCovers(idx, n);
        assert n - 1 in idx;
      }
      var rest := idx[..j] + idx[j + 1..];
      var x' := x[..n - 1];
      var g' := Gather(x', rest) by {
        RemoveLargest(idx, n, j);
      }
      assert multiset(g') == multiset(x') by {
        RemoveLargest(idx, n, j);
        GatherPermutation(x', rest);
      }
      assert multiset(Gather(x, idx)) == multiset(g') + multiset{x[n - 1]} by {
        RemoveLargest(idx, n, j);
        GatherSplit(x, idx, j);
        MultisetInsert(g', x[n - 1], j);
      }
      assert x == x' + [x[n - 1]];
    }
  }
}
