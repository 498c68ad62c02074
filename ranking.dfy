/**
 * Ranking: `articles.sort(key=lambda x: x['published'], reverse=True)`.
 * Python documents `list.sort` as stable, also with `reverse=True`: articles
 * with equal `published` keep their order. It is modelled by an in-place
 * insertion sort that moves an article left only past strictly smaller keys;
 * the function `SortByPublished` specifies it, and `StableSortUnique` shows
 * that every sorted, stable result equals `SortByPublished`.
 */
module Ranking {
  import opened Lex
  import opened Feeds

  /** Non-increasing `published` under Python's string order, for every pair of positions. */
  predicate SortedDesc(s: seq<Article>)
  {
    forall i, j :: 0 <= i < j < |s| ==> !Less(s[i].published, s[j].published)
  }

  /** The articles of `s` whose `published` is `k`, in their order in `s`. */
  function WithPublished(s: seq<Article>, k: string): seq<Article>
  {
    if |s| == 0 then [] else WithPublished(s[..|s| - 1], k) + KeyPart(s[|s| - 1], k)
  }

  function KeyPart(a: Article, k: string): seq<Article>
  {
    if a.published == k then [a] else []
  }

  /** Places `x` after the last element of `s` whose `published` is not smaller than `x`'s. */
  function Insert(x: Article, s: seq<Article>): (r: seq<Article>)
    ensures |r| == |s| + 1
  {
    if |s| == 0 then [x]
    else if Less(s[|s| - 1].published, x.published) then Insert(x, s[..|s| - 1]) + [s[|s| - 1]]
    else s + [x]
  }

  /** The ranked list: a permutation of `s` (its order is given by the lemmas below). */
  function SortByPublished(s: seq<Article>): (r: seq<Article>)
    ensures |r| == |s|
  {
    if |s| == 0 then [] else Insert(s[|s| - 1], SortByPublished(s[..|s| - 1]))
  }

  /** `Insert` adds `x` and loses nothing. */
  lemma {:induction false} InsertPermutation(x: Article, s: seq<Article>)
    ensures multiset(Insert(x, s)) == multiset(s) + multiset{x}
    decreases |s|
  {
    if |s| > 0 {
      var init, last := s[..|s| - 1], s[|s| - 1];
      assert s == init + [last];
      if Less(last.published, x.published) {
        InsertPermutation(x, init);
      }
    }
  }

  /** Ranking rearranges: it adds, drops and duplicates nothing. */
  lemma {:induction false} SortByPublishedPermutation(s: seq<Article>)
    ensures multiset(SortByPublished(s)) == multiset(s)
    decreases |s|
  {
    if |s| > 0 {
      var init := s[..|s| - 1];
      assert s == init + [s[|s| - 1]];
      SortByPublishedPermutation(init);
      InsertPermutation(s[|s| - 1], SortByPublished(init));
    }
  }

  lemma {:induction false} InsertSorted(x: Article, s: seq<Article>)
    requires SortedDesc(s)
    ensures SortedDesc(Insert(x, s))
    decreases |s|
  {
    if |s| == 0 {
    } else {
      var init, last := s[..|s| - 1], s[|s| - 1];
      if Less(last.published, x.published) {
        var r := Insert(x, init);
        assert SortedDesc(r) by {
          SortedInit(s);
          InsertSorted(x, init);
        }
        forall i | 0 <= i < |r|
          ensures !Less(r[i].published, last.published)
        {
          InsertPermutation(x, init);
          assert r[i] in multiset(init) + multiset{x};
          if r[i] == x {
            LessAsymmetric(last.published, x.published);
          } else {
            assert r[i] in init;
            var k :| 0 <= k < |init| && init[k] == r[i];
            assert s[k] == r[i];
          }
        }
        SortedSnoc(r, last);
        InsertPastSmaller(x, s);
      } else {
        forall i | 0 <= i < |s|
          ensures !Less(s[i].published, x.published)
        {
          if i < |s| - 1 {
            NotLessTransitive(s[i].published, last.published, x.published);
          }
        }
        SortedSnoc(s, x);
        InsertBehindLast(x, s);
      }
    }
  }

  /** A sorted list stays sorted when an article no greater than all of it is appended. */
  lemma SortedSnoc(s: seq<Article>, y: Article)
    requires SortedDesc(s)
    requires forall i :: 0 <= i < |s| ==> !Less(s[i].published, y.published)
    ensures SortedDesc(s + [y])
  {
    var t := s + [y];
    forall i, j | 0 <= i < j < |t|
      ensures !Less(t[i].published, t[j].published)
    {
      assert t[i] == s[i];
    }
  }

  lemma {:induction false} SortByPublishedSorted(s: seq<Article>)
    ensures SortedDesc(SortByPublished(s))
    decreases |s|
  {
    if |s| > 0 {
      SortByPublishedSorted(s[..|s| - 1]);
      InsertSorted(s[|s| - 1], SortByPublished(s[..|s| - 1]));
    }
  }

  lemma WithPublishedSnoc(s: seq<Article>, a: Article, k: string)
    ensures WithPublished(s + [a], k) == WithPublished(s, k) + KeyPart(a, k)
  {
    assert (s + [a])[..|s|] == s;
  }

  /** Inserting `x` adds it after every article with the same key: equal keys keep their order. */
  lemma {:induction false} InsertStable(x: Article, s: seq<Article>, k: string)
    ensures WithPublished(Insert(x, s), k) == WithPublished(s, k) + KeyPart(x, k)
    decreases |s|
  {
    if |s| == 0 {
      WithPublishedSnoc([], x, k);
    } else {
      var init, last := s[..|s| - 1], s[|s| - 1];
      if Less(last.published, x.published) {
        var r := Insert(x, init);
        assert Insert(x, s) == r + [last];
        InsertStable(x, init, k);
        WithPublishedSnoc(r, last, k);
        LessIrreflexive(x.published);
        var wi := WithPublished(init, k);
        assert WithPublished(s, k) == wi + KeyPart(last, k);
        calc {
          WithPublished(Insert(x, s), k);
          WithPublished(r, k) + KeyPart(last, k);
          wi + KeyPart(x, k) + KeyPart(last, k);
          { assert KeyPart(x, k) == [] || KeyPart(last, k) == []; }
          wi + KeyPart(last, k) + KeyPart(x, k);
        }
      } else {
        assert Insert(x, s) == s + [x];
        WithPublishedSnoc(s, x, k);
      }
    }
  }

  /** Stability: for every key, the articles with that key appear in the same order as before. */
  lemma {:induction false} SortByPublishedStable(s: seq<Article>, k: string)
    ensures WithPublished(SortByPublished(s), k) == WithPublished(s, k)
    decreases |s|
  {
    if |s| > 0 {
      SortByPublishedStable(s[..|s| - 1], k);
      InsertStable(s[|s| - 1], SortByPublished(s[..|s| - 1]), k);
    }
  }

  /** Cutting a list short keeps, for every key, a prefix of that key's articles. */
  lemma {:induction false} WithPublishedPrefix(s: seq<Article>, n: nat, k: string)
    requires n <= |s|
    ensures WithPublished(s[..n], k) <= WithPublished(s, k)
    decreases |s|
  {
    if n < |s| {
      assert s[..|s| - 1][..n] == s[..n];
      WithPublishedPrefix(s[..|s| - 1], n, k);
    } else {
      assert s[..n] == s;
    }
  }

  lemma {:induction false} WithPublishedOnlyKey(s: seq<Article>, k: string)
    ensures forall a :: a in WithPublished(s, k) ==> a in s && a.published == k
    decreases |s|
  {
    if |s| > 0 {
      WithPublishedOnlyKey(s[..|s| - 1], k);
      assert forall a :: a in s[..|s| - 1] ==> a in s;
    }
  }

  lemma {:induction false} WithPublishedHasKey(s: seq<Article>, i: nat)
    requires i < |s|
    ensures s[i] in WithPublished(s, s[i].published)
    decreases |s|
  {
    if i < |s| - 1 {
      WithPublishedHasKey(s[..|s| - 1], i);
    }
  }

  /** Every article of a sorted list is at least its last one. */
  lemma LastIsLeast(s: seq<Article>, a: Article)
    requires SortedDesc(s) && a in s
    ensures !Less(a.published, s[|s| - 1].published)
  {
    var i :| 0 <= i < |s| && s[i] == a;
    if i == |s| - 1 {
      LessIrreflexive(a.published);
    }
  }

  /** Two sorted lists with the same articles per key end with the same key. */
  lemma SameLastKey(t: seq<Article>, u: seq<Article>)
    requires SortedDesc(t) && SortedDesc(u) && |t| > 0 && |u| > 0
    requires forall k :: WithPublished(t, k) == WithPublished(u, k)
    ensures t[|t| - 1].published == u[|u| - 1].published
  {
    var x, y := t[|t| - 1], u[|u| - 1];
    WithPublishedHasKey(t, |t| - 1);
    WithPublishedOnlyKey(u, x.published);
    LastIsLeast(u, x);
    WithPublishedHasKey(u, |u| - 1);
    WithPublishedOnlyKey(t, y.published);
    LastIsLeast(t, y);
    LessTotal(x.published, y.published);
  }

  /** Removing the same last article from both lists keeps their lists for key `k` equal. */
  lemma DropLastKeepsKeys(t: seq<Article>, u: seq<Article>, k: string)
    requires |t| > 0 && |u| > 0 && t[|t| - 1] == u[|u| - 1]
    requires WithPublished(t, k) == WithPublished(u, k)
    ensures WithPublished(t[..|t| - 1], k) == WithPublished(u[..|u| - 1], k)
  {
    var wt, wu := WithPublished(t[..|t| - 1], k), WithPublished(u[..|u| - 1], k);
    var tail := KeyPart(t[|t| - 1], k);
    assert WithPublished(t, k) == wt + tail && WithPublished(u, k) == wu + tail;
    assert wt == (wt + tail)[..|wt|] && wu == (wu + tail)[..|wu|];
  }

  /**
   * A sorted, stable arrangement is unique: two lists sorted by descending
   * `published` with the same articles per key in the same order are equal.
   * So `SortByPublished` is what any stable sort with `reverse=True` returns.
   */
  lemma {:induction false} StableSortUnique(t: seq<Article>, u: seq<Article>)
    requires SortedDesc(t) && SortedDesc(u)
    requires forall k :: WithPublished(t, k) == WithPublished(u, k)
    ensures t == u
    decreases |t| + |u|
  {
    if |t| == 0 || |u| == 0 {
      if |t| > 0 {
        WithPublishedHasKey(t, 0);
        assert false;
      } else if |u| > 0 {
        WithPublishedHasKey(u, 0);
        assert false;
      }
    } else {
      var n, m := |t| - 1, |u| - 1;
      var t', u' := t[..n], u[..m];
      assert t[n] == u[m] by {
        SameLastKey(t, u);
        var k := t[n].published;
        var w := WithPublished(t, k);
        assert w == WithPublished(t', k) + [t[n]] && w[|w| - 1] == t[n];
        assert w == WithPublished(u', k) + [u[m]] && w[|w| - 1] == u[m];
      }
      forall k' | true
        ensures WithPublished(t', k') == WithPublished(u', k')
      {
        DropLastKeepsKeys(t, u, k');
      }
      SortedInit(t);
      SortedInit(u);
      StableSortUnique(t', u');
      SameInitAndLast(t, u);
    }
  }

  lemma SortedInit(s: seq<Article>)
    requires SortedDesc(s) && |s| > 0
    ensures SortedDesc(s[..|s| - 1])
  {
  }

  lemma SameInitAndLast<T>(t: seq<T>, u: seq<T>)
    requires |t| > 0 && |u| > 0
    requires t[..|t| - 1] == u[..|u| - 1] && t[|t| - 1] == u[|u| - 1]
    ensures t == u
  {
    assert t == t[..|t| - 1] + [t[|t| - 1]];
    assert u == u[..|u| - 1] + [u[|u| - 1]];
  }

  /** In a ranked list, every article of a prefix is ranked at least as high as every article after it. */
  lemma PrefixIsTop(r: seq<Article>, n: nat)
    requires SortedDesc(r) && n <= |r|
    ensures multiset(r[..n]) <= multiset(r)
    ensures forall a, b :: a in r[..n] && b in multiset(r) - multiset(r[..n]) ==> !Less(a.published, b.published)
  {
    var h, rest := r[..n], r[n..];
    SplitMultiset(r, n);
    forall a, b | a in h && b in multiset(r) - multiset(h)
      ensures !Less(a.published, b.published)
    {
      assert b in multiset(rest);
      var i :| 0 <= i < n && h[i] == a;
      var j :| 0 <= j < |rest| && rest[j] == b;
      assert r[i] == a && r[n + j] == b;
    }
  }

  lemma SplitMultiset<T>(r: seq<T>, n: nat)
    requires n <= |r|
    ensures multiset(r) == multiset(r[..n]) + multiset(r[n..])
  {
    assert r == r[..n] + r[n..];
  }

  /** Ranking puts every article with an empty `published` after all the others. */
  lemma EmptyPublishedLast(s: seq<Article>, i: nat, j: nat)
    requires SortedDesc(s)
    requires i < j < |s| && s[i].published == ""
    ensures s[j].published == ""
  {
    EmptyIsLeast(s[j].published);
  }

  /**
   * Where `x` lands: after the prefix `s[..j]` whose last key is not smaller
   * than `x`'s, when every key after it is strictly smaller.
   */
  lemma {:induction false} InsertSplit(x: Article, s: seq<Article>, j: nat)
    requires j <= |s| && (j == 0 || !Less(s[j - 1].published, x.published))
    requires forall k :: j <= k < |s| ==> Less(s[k].published, x.published)
    ensures Insert(x, s) == s[..j] + [x] + s[j..]
    decreases |s|
  {
    if j == |s| {
      assert s[..j] == s && s[j..] == [];
    } else {
      var init, last := s[..|s| - 1], s[|s| - 1];
      assert Less(last.published, x.published);
      InsertPastSmaller(x, s);
      forall k | j <= k < |init|
        ensures Less(init[k].published, x.published)
      {
        assert init[k] == s[k];
      }
      assert j > 0 ==> init[j - 1] == s[j - 1];
      InsertSplit(x, init, j);
      AppendAfterSplit(init, x, j, last);
      assert init + [last] == s;
    }
  }

  /** `Insert` stops at once behind a last key that is not smaller. */
  lemma InsertBehindLast(x: Article, s: seq<Article>)
    requires |s| > 0 && !Less(s[|s| - 1].published, x.published)
    ensures Insert(x, s) == s + [x]
  {
  }

  /** One step of `Insert` past a strictly smaller last key. */
  lemma InsertPastSmaller(x: Article, s: seq<Article>)
    requires |s| > 0 && Less(s[|s| - 1].published, x.published)
    ensures Insert(x, s) == Insert(x, s[..|s| - 1]) + [s[|s| - 1]]
  {
  }

  /** Appending after a split list appends to its tail. */
  lemma AppendAfterSplit(t: seq<Article>, x: Article, j: nat, last: Article)
    requires j <= |t|
    ensures t[..j] + [x] + t[j..] + [last] == (t + [last])[..j] + [x] + (t + [last])[j..]
  {
    assert (t + [last])[..j] == t[..j];
    assert (t + [last])[j..] == t[j..] + [last];
  }

  /** Ranking a longer prefix inserts the next element into the ranked shorter prefix. */
  lemma SortPrefixStep(s: seq<Article>, i: nat)
    requires i < |s|
    ensures SortByPublished(s[..i + 1]) == Insert(s[i], SortByPublished(s[..i]))
  {
    assert s[..i + 1][..i] == s[..i];
  }

  /**
   * The state of `InsertAt` with the hole at `j`: `sorted[..j]` in place, the
   * strictly smaller keys `sorted[j..]` shifted one place right.
   */
  ghost predicate Shifted(cur: seq<Article>, sorted: seq<Article>, key: Article, i: nat, j: nat)
  {
    j <= i < |cur| && |sorted| == i
    && (forall k :: 0 <= k < j ==> cur[k] == sorted[k])
    && (forall k :: j < k <= i ==> cur[k] == sorted[k - 1])
    && (forall k :: j <= k < i ==> Less(sorted[k].published, key.published))
  }

  /** Moving the hole left past a strictly smaller key keeps the state. */
  lemma ShiftStep(cur: seq<Article>, sorted: seq<Article>, key: Article, i: nat, j: nat)
    requires Shifted(cur, sorted, key, i, j) && j > 0
    requires Less(cur[j - 1].published, key.published)
    ensures Shifted(cur[j := cur[j - 1]], sorted, key, i, j - 1)
  {
    assert cur[j - 1] == sorted[j - 1];
  }

  /** Moves `a[i]` left past the strictly smaller keys before it: `Insert` on the prefix `a[..i]`. */
  method InsertAt(a: array<Article>, i: nat)
    requires i < a.Length
    modifies a
    ensures a[..i + 1] == Insert(old(a[i]), old(a[..i]))
    ensures a[i + 1..] == old(a[i + 1..])
  {
    var key := a[i];
    ghost var sorted := a[..i];
    var j := i;
    while j > 0 && Less(a[j - 1].published, key.published)
      invariant Shifted(a[..], sorted, key, i, j)
      invariant forall k :: i < k < a.Length ==> a[k] == old(a[k])
    {
      ghost var cur := a[..];
      a[j] := a[j - 1];
      ShiftStep(cur, sorted, key, i, j);
      assert a[..] == cur[j := cur[j - 1]];
      j := j - 1;
    }
    ghost var cur := a[..];
    a[j] := key;
    assert a[..] == cur[j := key];
    ShiftedIsInsert(cur, sorted, key, i, j);
    assert a[i + 1..] == old(a[i + 1..]);
  }

  /** Dropping `key` into the hole gives `Insert` once the key before the hole is not smaller. */
  lemma ShiftedIsInsert(cur: seq<Article>, sorted: seq<Article>, key: Article, i: nat, j: nat)
    requires Shifted(cur, sorted, key, i, j)
    requires j == 0 || !Less(cur[j - 1].published, key.published)
    ensures cur[j := key][..i + 1] == Insert(key, sorted)
  {
    var placed := sorted[..j] + [key] + sorted[j..];
    var done := cur[j := key];
    forall k | 0 <= k <= i
      ensures done[k] == placed[k]
    {
      if k > j {
        assert placed[k] == sorted[k - 1];
      }
    }
    assert done[..i + 1] == placed;
    assert j > 0 ==> cur[j - 1] == sorted[j - 1];
    InsertSplit(key, sorted, j);
  }

  /** Sorts `a` in place, as `list.sort(key=published, reverse=True)` does. */
  method SortInPlace(a: array<Article>)
    modifies a
    ensures a[..] == SortByPublished(old(a[..]))
  {
    ghost var input := a[..];
    for i := 0 to a.Length
      invariant a[..i] == SortByPublished(input[..i])
      invariant a[i..] == input[i..]
    {
      InsertAt(a, i);
      SortPrefixStep(input, i);
    }
    assert input[..a.Length] == input;
  }
}
