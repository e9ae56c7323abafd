/** Group counts and rankings: the `counts[key] = (counts[key] || 0) + 1` idiom over a
    list, read back with `Object.entries` (keys in first-insertion order), and then
    `sort((a, b) => b[1] - a[1])`, a stable sort by decreasing count. */
module Ranking {
  import opened Common

  /** The number of times `k` occurs in `s`. */
  function Occurrences<K(==)>(s: seq<K>, k: K): nat
    decreases |s|
  {
    if s == [] then 0 else Occurrences(s[..|s| - 1], k) + (if s[|s| - 1] == k then 1 else 0)
  }

  function Keys<K(==)>(t: seq<(K, nat)>): seq<K> {
    seq(|t|, i requires 0 <= i < |t| => t[i].0)
  }

  /** The sum of the counts. */
  function Total<K(==)>(t: seq<(K, nat)>): nat
    decreases |t|
  {
    if t == [] then 0 else Total(t[..|t| - 1]) + t[|t| - 1].1
  }

  predicate DistinctKeys<K(==)>(t: seq<(K, nat)>) {
    forall i, j :: 0 <= i < j < |t| ==> t[i].0 != t[j].0
  }

  function KeyIs<K(==)>(k: K): ((K, nat)) -> bool {
    (e: (K, nat)) => e.0 == k
  }

  /** One `counts[k] = (counts[k] || 0) + 1` step. */
  function Bump<K(==)>(t: seq<(K, nat)>, k: K): seq<(K, nat)> {
    match FirstIndex(t, KeyIs(k))
    case None => t + [(k, 1)]
    case Some(i) => t[i := (k, t[i].1 + 1)]
  }

  /** Counting every element of `s`, keys in order of first occurrence. */
  function Tally<K(==)>(s: seq<K>): seq<(K, nat)>
    decreases |s|
  {
    if s == [] then [] else Bump(Tally(s[..|s| - 1]), s[|s| - 1])
  }

  /** The keys of a tally are exactly the elements of the list, each once. */
  lemma {:induction false} TallyKeys<K>(s: seq<K>)
    ensures DistinctKeys(Tally(s))
    ensures forall k :: k in s <==> k in Keys(Tally(s))
    decreases |s|
  {
    if s != [] {
      var s', x := s[..|s| - 1], s[|s| - 1];
      TallyKeys(s');
      var t' := Tally(s');
      assert s == s' + [x];
      match FirstIndex(t', KeyIs(x))
      case None =>
        forall i | 0 <= i < |t'|
          ensures t'[i].0 != x
        {
          assert !KeyIs(x)(t'[i]);
        }
        assert Keys(Tally(s)) == Keys(t') + [x];
      case Some(i) =>
        assert Keys(Tally(s)) == Keys(t');
        assert Keys(t')[i] == x;
    }
  }

  /** Each count of a tally is the number of occurrences of its key. */
  lemma {:induction false} TallyCounts<K>(s: seq<K>)
    ensures forall i :: 0 <= i < |Tally(s)| ==> Tally(s)[i].1 == Occurrences(s, Tally(s)[i].0)
    decreases |s|
  {
    if s != [] {
      var s', x := s[..|s| - 1], s[|s| - 1];
      TallyCounts(s');
      TallyKeys(s');
      var t' := Tally(s');
      match FirstIndex(t', KeyIs(x))
      case None =>
        forall i | 0 <= i < |t'|
          ensures t'[i].0 != x
        {
          assert !KeyIs(x)(t'[i]);
        }
        OccurrencesAbsent(s', x);
      case Some(i) =>
    }
  }

  lemma {:induction false} OccurrencesAbsent<K>(s: seq<K>, k: K)
    requires k !in s
    ensures Occurrences(s, k) == 0
    decreases |s|
  {
    if s != [] {
      assert s[..|s| - 1] <= s;
      OccurrencesAbsent(s[..|s| - 1], k);
    }
  }

  lemma {:induction false} TotalAppend<K>(t: seq<(K, nat)>, e: (K, nat))
    ensures Total(t + [e]) == Total(t) + e.1
  {
    assert (t + [e])[..|t + [e]| - 1] == t;
  }

  lemma {:induction false} TotalUpdate<K>(t: seq<(K, nat)>, i: nat, e: (K, nat))
    requires i < |t|
    ensures Total(t[i := e]) == Total(t) - t[i].1 + e.1
    decreases |t|
  {
    if i < |t| - 1 {
      assert t[i := e][..|t| - 1] == t[..|t| - 1][i := e];
      TotalUpdate(t[..|t| - 1], i, e);
    } else {
      assert t[i := e][..|t| - 1] == t[..|t| - 1];
    }
  }

  /** The counts of a tally add up to the length of the list. */
  lemma {:induction false} TallyTotal<K>(s: seq<K>)
    ensures Total(Tally(s)) == |s|
    decreases |s|
  {
    if s != [] {
      var s', x := s[..|s| - 1], s[|s| - 1];
      TallyTotal(s');
      var t' := Tally(s');
      match FirstIndex(t', KeyIs(x))
      case None =>
        TotalAppend(t', (x, 1));
      case Some(i) =>
        TotalUpdate(t', i, (x, t'[i].1 + 1));
    }
  }

  predicate NonIncreasing<K(==)>(t: seq<(K, nat)>) {
    forall i, j :: 0 <= i < j < |t| ==> t[i].1 >= t[j].1
  }

  /** Insertion of `x` after every entry whose count is at least `x`'s: the step of a
      stable sort by decreasing count. */
  function InsertByCount<K(==)>(s: seq<(K, nat)>, x: (K, nat)): (r: seq<(K, nat)>)
    ensures multiset(r) == multiset(s) + multiset{x}
    decreases |s|
  {
    if s == [] || s[|s| - 1].1 >= x.1 then s + [x]
    else
      assert s == s[..|s| - 1] + [s[|s| - 1]];
      InsertByCount(s[..|s| - 1], x) + [s[|s| - 1]]
  }

  /** A stable sort by decreasing count (equal counts keep their input order). */
  function SortByCount<K(==)>(t: seq<(K, nat)>): (r: seq<(K, nat)>)
    ensures multiset(r) == multiset(t)
    decreases |t|
  {
    if t == [] then []
    else
      assert t == t[..|t| - 1] + [t[|t| - 1]];
      InsertByCount(SortByCount(t[..|t| - 1]), t[|t| - 1])
  }

  /** `r` is `s` with `x` inserted at `p`, after every entry whose count is at least
      `x`'s and before the entries at the end whose count is below it. */
  ghost predicate PlacedAt<K>(s: seq<(K, nat)>, x: (K, nat), r: seq<(K, nat)>, p: nat) {
    p <= |s| && r == s[..p] + [x] + s[p..]
    && (forall k :: p <= k < |s| ==> s[k].1 < x.1)
    && (p > 0 ==> s[p - 1].1 >= x.1)
  }

  /** The insertion goes after the entries of equal count, so the sort keeps ties in
      their input order. */
  lemma {:induction false} InsertAfterEqual<K>(s: seq<(K, nat)>, x: (K, nat))
    ensures exists p :: PlacedAt(s, x, InsertByCount(s, x), p)
    decreases |s|
  {
    if s == [] || s[|s| - 1].1 >= x.1 {
      assert s[..|s|] == s && s[|s|..] == [];
      assert PlacedAt(s, x, InsertByCount(s, x), |s|);
    } else {
      var s' := s[..|s| - 1];
      InsertAfterEqual(s', x);
      var p :| PlacedAt(s', x, InsertByCount(s', x), p);
      PlacedSnoc(s, x, InsertByCount(s', x), p);
      assert PlacedAt(s, x, InsertByCount(s, x), p);
    }
  }

  /** An entry below `x` at the end, after the insertion point, keeps the placement. */
  lemma PlacedSnoc<K>(s: seq<(K, nat)>, x: (K, nat), r: seq<(K, nat)>, p: nat)
    requires s != [] && s[|s| - 1].1 < x.1 && PlacedAt(s[..|s| - 1], x, r, p)
    ensures PlacedAt(s, x, r + [s[|s| - 1]], p)
  {
    var s', last := s[..|s| - 1], s[|s| - 1];
    assert s[..p] == s'[..p];
    assert s[p..] == s'[p..] + [last];
    ConcatAssoc(s'[..p] + [x], s'[p..], [last]);
  }

  lemma {:induction false} InsertSorted<K>(s: seq<(K, nat)>, x: (K, nat))
    requires NonIncreasing(s)
    ensures NonIncreasing(InsertByCount(s, x))
    decreases |s|
  {
    if !(s == [] || s[|s| - 1].1 >= x.1) {
      var s', last := s[..|s| - 1], s[|s| - 1];
      InsertSorted(s', x);
      var r' := InsertByCount(s', x);
      forall i | 0 <= i < |r'|
        ensures r'[i].1 >= last.1
      {
        assert r'[i] in multiset(r');
        if r'[i] != x {
          assert r'[i] in multiset(s');
          var k :| 0 <= k < |s'| && s'[k] == r'[i];
          assert s[k] == s'[k];
        }
      }
    }
  }

  /** The ranking is ordered by non-increasing count and is a permutation of its input. */
  lemma {:induction false} SortSorted<K>(t: seq<(K, nat)>)
    ensures NonIncreasing(SortByCount(t))
    ensures |SortByCount(t)| == |t|
    decreases |t|
  {
    var r := SortByCount(t);
    assert |r| == |multiset(r)| == |multiset(t)| == |t|;
    if t != [] {
      SortSorted(t[..|t| - 1]);
      InsertSorted(SortByCount(t[..|t| - 1]), t[|t| - 1]);
    }
  }

  lemma {:induction false} InsertTotal<K>(s: seq<(K, nat)>, x: (K, nat))
    ensures Total(InsertByCount(s, x)) == Total(s) + x.1
    decreases |s|
  {
    if s == [] || s[|s| - 1].1 >= x.1 {
      TotalAppend(s, x);
    } else {
      var s', last := s[..|s| - 1], s[|s| - 1];
      InsertTotal(s', x);
      TotalAppend(InsertByCount(s', x), last);
    }
  }

  /** Sorting does not change the sum of the counts. */
  lemma {:induction false} SortTotal<K>(t: seq<(K, nat)>)
    ensures Total(SortByCount(t)) == Total(t)
    decreases |t|
  {
    if t != [] {
      SortTotal(t[..|t| - 1]);
      InsertTotal(SortByCount(t[..|t| - 1]), t[|t| - 1]);
    }
  }

  /** `Object.entries(counts).sort((a, b) => b[1] - a[1])` over the keys of `s`. */
  function Rank<K(==)>(s: seq<K>): seq<(K, nat)> {
    SortByCount(Tally(s))
  }

  /** Every ranked entry is an element of the list with its number of occurrences. */
  lemma RankMembers<K>(s: seq<K>)
    ensures forall e :: e in Rank(s) ==> e.0 in s && e.1 == Occurrences(s, e.0)
  {
    var t := Tally(s);
    TallyKeys(s);
    TallyCounts(s);
    forall e | e in Rank(s)
      ensures e.0 in s && e.1 == Occurrences(s, e.0)
    {
      assert e in multiset(t);
      var i :| 0 <= i < |t| && t[i] == e;
      assert Keys(t)[i] == e.0;
    }
  }

  /** Every element of the list has an entry in the ranking. */
  lemma RankCovers<K>(s: seq<K>)
    ensures forall k :: k in s ==> exists e :: e in Rank(s) && e.0 == k
  {
    var t := Tally(s);
    TallyKeys(s);
    forall k | k in s
      ensures exists e :: e in Rank(s) && e.0 == k
    {
      var i :| 0 <= i < |t| && Keys(t)[i] == k;
      assert t[i] in multiset(Rank(s));
    }
  }

  /** In a list ordered by non-increasing count, an entry after the first `n` counts
      no more than any of them. */
  lemma PrefixIsTop<K>(all: seq<(K, nat)>, n: nat)
    requires n <= |all| && NonIncreasing(all)
    ensures forall x :: x in all ==> x in all[..n] || forall e :: e in all[..n] ==> x.1 <= e.1
  {
    forall i | 0 <= i < n
      ensures all[i] in all[..n]
    {
      assert all[..n][i] == all[i];
    }
    forall x | x in all && x !in all[..n]
      ensures forall e :: e in all[..n] ==> x.1 <= e.1
    {
      var j :| 0 <= j < |all| && all[j] == x;
      assert j >= n;
      forall e | e in all[..n]
        ensures x.1 <= e.1
      {
        var i :| 0 <= i < n && all[..n][i] == e;
      }
    }
  }

  /** The first `n` entries of a ranking are its top: a key left out has no more
      occurrences than any key shown. */
  lemma RankTop<K>(s: seq<K>, n: nat)
    requires n <= |Rank(s)|
    ensures forall k :: k in s ==>
      (exists e :: e in Rank(s)[..n] && e.0 == k)
      || (forall e :: e in Rank(s)[..n] ==> Occurrences(s, k) <= e.1)
  {
    var all := Rank(s);
    RankCorrect(s);
    PrefixIsTop(all, n);
    forall k | k in s
      ensures (exists e :: e in all[..n] && e.0 == k) || (forall e :: e in all[..n] ==> Occurrences(s, k) <= e.1)
    {
      var x :| x in all && x.0 == k;
    }
  }

  /** A ranking lists every distinct key once with its number of occurrences, in
      non-increasing order of count, and its counts add up to the number of elements. */
  lemma RankCorrect<K>(s: seq<K>)
    ensures NonIncreasing(Rank(s))
    ensures Total(Rank(s)) == |s|
    ensures forall e :: e in Rank(s) ==> e.0 in s && e.1 == Occurrences(s, e.0)
    ensures forall k :: k in s ==> exists e :: e in Rank(s) && e.0 == k
  {
    var t := Tally(s);
    SortSorted(t);
    SortTotal(t);
    TallyTotal(s);
    RankMembers(s);
    RankCovers(s);
  }
}
