/** Sequence operations behind the store's queries: `Array.prototype.filter`,
    `find`, `[...new Set(xs)]` and the per-key count tables. */
module Seqs {
  import opened Wrappers

  /** `r` can be obtained from `s` by deleting elements, keeping order. */
  ghost predicate IsSubsequence<T>(r: seq<T>, s: seq<T>)
    decreases |s|
  {
    |r| == 0 ||
    (|s| > 0 && ((r[0] == s[0] && IsSubsequence(r[1..], s[1..])) || IsSubsequence(r, s[1..])))
  }

  /** No element occurs twice. */
  predicate NoDups<T(==)>(s: seq<T>) {
    forall i, j :: 0 <= i < j < |s| ==> s[i] != s[j]
  }

  /** `s.filter(p)`. It keeps, in their original order, exactly the elements
      that satisfy `p`, each as often as it occurs in `s`. */
  function Filter<T(!new)>(p: T -> bool, s: seq<T>): (r: seq<T>)
    ensures IsSubsequence(r, s)
    ensures forall i :: 0 <= i < |r| ==> p(r[i])
    ensures forall x :: p(x) ==> multiset(r)[x] == multiset(s)[x]
  {
    if |s| == 0 then []
    else
      assert s == [s[0]] + s[1..];
      var rest := Filter(p, s[1..]);
      if p(s[0]) then [s[0]] + rest else rest
  }

  /** A filter whose predicate holds everywhere keeps everything. */
  lemma {:induction false} FilterAll<T(!new)>(p: T -> bool, s: seq<T>)
    requires forall i :: 0 <= i < |s| ==> p(s[i])
    ensures Filter(p, s) == s
  {
    if |s| > 0 {
      FilterAll(p, s[1..]);
    }
  }

  /** Filtering by a disjunction of two exclusive predicates keeps as many
      elements as the two filters together. */
  lemma {:induction false} FilterSplit<T(!new)>(p: T -> bool, q: T -> bool, pq: T -> bool, s: seq<T>)
    requires forall x :: pq(x) == (p(x) || q(x))
    requires forall x :: !(p(x) && q(x))
    ensures |Filter(pq, s)| == |Filter(p, s)| + |Filter(q, s)|
  {
    if |s| > 0 {
      FilterSplit(p, q, pq, s[1..]);
    }
  }

  /** Filters by two predicates that agree everywhere give the same result. */
  lemma {:induction false} FilterCongruent<T(!new)>(p: T -> bool, q: T -> bool, s: seq<T>)
    requires forall x :: p(x) == q(x)
    ensures Filter(p, s) == Filter(q, s)
  {
    if |s| > 0 {
      FilterCongruent(p, q, s[1..]);
    }
  }

  /** A filter by a stronger predicate keeps a subsequence of what a filter by
      a weaker one keeps. */
  lemma {:induction false} FilterImplies<T(!new)>(p: T -> bool, q: T -> bool, s: seq<T>)
    requires forall x :: p(x) ==> q(x)
    ensures IsSubsequence(Filter(p, s), Filter(q, s))
  {
    if |s| > 0 {
      FilterImplies(p, q, s[1..]);
      var fp, fq := Filter(p, s[1..]), Filter(q, s[1..]);
      if p(s[0]) {
        assert ([s[0]] + fp)[1..] == fp && ([s[0]] + fq)[1..] == fq;
      } else if q(s[0]) {
        assert ([s[0]] + fq)[1..] == fq;
      }
    }
  }

  /** `s.map(f)`. */
  function Map<T, U>(f: T -> U, s: seq<T>): (r: seq<U>)
    ensures |r| == |s| && forall i :: 0 <= i < |s| ==> r[i] == f(s[i])
  {
    if |s| == 0 then [] else [f(s[0])] + Map(f, s[1..])
  }

  /** `s.find(p)`: the first element satisfying `p`, or `undefined`. */
  function Find<T>(p: T -> bool, s: seq<T>): (r: Option<T>)
    ensures r.None? <==> forall i :: 0 <= i < |s| ==> !p(s[i])
    ensures r.Some? ==> exists i :: 0 <= i < |s| && s[i] == r.value && p(s[i]) &&
                                   forall j :: 0 <= j < i ==> !p(s[j])
  {
    if |s| == 0 then None
    else if p(s[0]) then Some(s[0])
    else
      var r := Find(p, s[1..]);
      assert forall i :: 0 < i < |s| ==> s[i] == s[1..][i - 1];
      r
  }

  /** The index of the first occurrence of `x` in `s`. */
  function IndexOf<T(==)>(s: seq<T>, x: T): (k: nat)
    requires x in s
    ensures k < |s| && s[k] == x && x !in s[..k]
  {
    if s[0] == x then 0 else 1 + IndexOf(s[1..], x)
  }

  lemma {:induction false} IndexOfPrefix<T>(s: seq<T>, n: nat, x: T)
    requires n <= |s| && x in s[..n]
    ensures IndexOf(s, x) == IndexOf(s[..n], x) < n
  {
    if s[0] != x {
      assert s[..n][1..] == s[1..][..n - 1];
      IndexOfPrefix(s[1..], n - 1, x);
    }
  }

  /** `[...new Set(xs)]`: each value of `xs` once, at the place of its first
      occurrence. */
  function Unique<T(==,!new)>(xs: seq<T>): (r: seq<T>)
    ensures NoDups(r)
    ensures forall x :: x in r <==> x in xs
  {
    if |xs| == 0 then []
    else
      var init := xs[..|xs| - 1];
      var last := xs[|xs| - 1];
      assert xs == init + [last];
      var u := Unique(init);
      if last in u then u else u + [last]
  }

  /** The values of `Unique(xs)` are in the order in which they first occur in `xs`. */
  lemma {:induction false} UniqueFirstSeen<T(!new)>(xs: seq<T>)
    ensures forall i, j :: 0 <= i < j < |Unique(xs)| ==>
              IndexOf(xs, Unique(xs)[i]) < IndexOf(xs, Unique(xs)[j])
  {
    if |xs| > 0 {
      var n := |xs| - 1;
      var init, last := xs[..n], xs[n];
      var u := Unique(init);
      UniqueFirstSeen(init);
      assert xs[..n] == init;
      forall x | x in u
        ensures IndexOf(xs, x) == IndexOf(init, x) < n
      {
        IndexOfPrefix(xs, n, x);
      }
      if last !in u {
        assert last !in init;
        assert IndexOf(xs, last) == n;
      }
    }
  }

  /** One row of a count table: a value and how many records carry it. */
  datatype Tally<K> = Tally(key: K, count: nat)

  /** The predicate `x => key(x) === k` that a per-value filter uses. */
  function HasKey<T(!new), K(==)>(key: T -> K, k: K): (p: T -> bool)
    ensures forall x :: p(x) == (key(x) == k)
  {
    x => key(x) == k
  }

  function KeyIn<T(!new), K(==)>(key: T -> K, u: seq<K>): (p: T -> bool)
    ensures forall x :: p(x) == (key(x) in u)
  {
    x => key(x) in u
  }

  /** `u.map(k => ({k, count: s.filter(x => key(x) === k).length}))`. */
  function Tabulate<T(!new), K(==)>(s: seq<T>, key: T -> K, u: seq<K>): (t: seq<Tally<K>>)
    ensures |t| == |u|
    ensures forall i :: 0 <= i < |u| ==> t[i].key == u[i]
    ensures forall i :: 0 <= i < |u| ==> t[i].count == |Filter(HasKey(key, u[i]), s)|
  {
    if |u| == 0 then [] else [Tally(u[0], |Filter(HasKey(key, u[0]), s)|)] + Tabulate(s, key, u[1..])
  }

  /** The sum of the counts of a table. */
  function Total<K>(t: seq<Tally<K>>): nat {
    if |t| == 0 then 0 else t[0].count + Total(t[1..])
  }

  /** Two different rows of a table together count no more than the whole
      table. */
  lemma {:induction false} TotalOfTwoRows<K>(t: seq<Tally<K>>, a: nat, b: nat)
    requires a < |t| && b < |t| && a != b
    ensures Total(t) >= t[a].count + t[b].count
  {
    if a == 0 {
      TotalOfOneRow(t[1..], b - 1);
    } else if b == 0 {
      TotalOfOneRow(t[1..], a - 1);
    } else {
      TotalOfTwoRows(t[1..], a - 1, b - 1);
    }
  }

  lemma {:induction false} TotalOfOneRow<K>(t: seq<Tally<K>>, a: nat)
    requires a < |t|
    ensures Total(t) >= t[a].count
  {
    if a > 0 {
      TotalOfOneRow(t[1..], a - 1);
    }
  }

  lemma {:induction false} TabulateCountsKeyed<T(!new), K>(s: seq<T>, key: T -> K, u: seq<K>)
    requires NoDups(u)
    ensures Total(Tabulate(s, key, u)) == |Filter(KeyIn(key, u), s)|
  {
    if |u| == 0 {
      FilterNone(KeyIn(key, u), s);
    } else {
      var t := Tabulate(s, key, u);
      assert t[1..] == Tabulate(s, key, u[1..]);
      assert NoDups(u[1..]) by {
        assert forall i :: 0 <= i < |u| - 1 ==> u[1..][i] == u[i + 1];
      }
      TabulateCountsKeyed(s, key, u[1..]);
      assert u[0] !in u[1..] by {
        assert forall i :: 0 <= i < |u| - 1 ==> u[1..][i] == u[i + 1];
      }
      assert forall k :: k in u <==> k == u[0] || k in u[1..] by {
        assert u == [u[0]] + u[1..];
      }
      FilterSplit(HasKey(key, u[0]), KeyIn(key, u[1..]), KeyIn(key, u), s);
    }
  }

  lemma {:induction false} FilterNone<T(!new)>(p: T -> bool, s: seq<T>)
    requires forall x :: !p(x)
    ensures Filter(p, s) == []
  {
    if |s| > 0 {
      FilterNone(p, s[1..]);
    }
  }

  /** A count table over a list of distinct values that covers every record
      accounts for every record exactly once: its counts sum to `|s|`. */
  lemma TabulatePartition<T(!new), K>(s: seq<T>, key: T -> K, u: seq<K>)
    requires NoDups(u)
    requires forall i :: 0 <= i < |s| ==> key(s[i]) in u
    ensures Total(Tabulate(s, key, u)) == |s|
  {
    TabulateCountsKeyed(s, key, u);
    FilterAll(KeyIn(key, u), s);
  }
}
