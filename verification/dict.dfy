/**
 Python's insertion-ordered `dict`, as a sequence of key/value pairs in
 insertion order, with the three idioms the analysis engine builds on it:
 `d[k] = v`, `defaultdict(list)` grouping, and `max(d, key=...)`, which
 keeps the first key of maximal score.
 */
module Dict {
  import opened Common

  function Keys<K, V>(d: seq<(K, V)>): (ks: seq<K>)
    ensures |ks| == |d|
    ensures forall i :: 0 <= i < |d| ==> ks[i] == d[i].0
  {
    if |d| == 0 then [] else Keys(d[..|d| - 1]) + [d[|d| - 1].0]
  }

  function Values<K, V>(d: seq<(K, V)>): (vs: seq<V>)
    ensures |vs| == |d|
    ensures forall i :: 0 <= i < |d| ==> vs[i] == d[i].1
  {
    if |d| == 0 then [] else Values(d[..|d| - 1]) + [d[|d| - 1].1]
  }

  /** `k in d`. */
  predicate HasKey<K(==), V>(d: seq<(K, V)>, k: K)
  {
    k in Keys(d)
  }

  /** The keys of a Python dict are pairwise distinct. */
  ghost predicate DistinctKeys<K, V>(d: seq<(K, V)>)
  {
    forall i, j :: 0 <= i < j < |d| ==> d[i].0 != d[j].0
  }

  /** Position of key `k`. */
  function IndexOf<K(==), V>(d: seq<(K, V)>, k: K): (i: nat)
    requires HasKey(d, k)
    ensures i < |d| && d[i].0 == k
    ensures forall j :: 0 <= j < i ==> d[j].0 != k
  {
    if d[0].0 == k then 0
    else
      assert d == [d[0]] + d[1..];
      KeysCons(d[0].0, d[0].1, d[1..]);
      1 + IndexOf(d[1..], k)
  }

  /** `d.get(k)`. */
  function Get<K(==), V>(d: seq<(K, V)>, k: K): (r: Option<V>)
    ensures r.Some? <==> HasKey(d, k)
    ensures r.Some? ==> r.value == d[IndexOf(d, k)].1
  {
    if HasKey(d, k) then Some(d[IndexOf(d, k)].1) else None
  }

  /** `d.get(k, default)`. */
  function GetOr<K(==), V>(d: seq<(K, V)>, k: K, default: V): V
  {
    Get(d, k).GetOr(default)
  }

  /** The position holding the first occurrence of `k` is the one `IndexOf` finds. */
  lemma IndexOfUnique<K, V>(d: seq<(K, V)>, k: K, j: nat)
    requires j < |d| && d[j].0 == k
    requires forall m :: 0 <= m < j ==> d[m].0 != k
    ensures HasKey(d, k) && IndexOf(d, k) == j
  {
    assert Keys(d)[j] == k;
  }

  /** Lookup in a dict written out entry by entry: the first entry answers for its key. */
  lemma GetHead<K, V>(k: K, v: V, rest: seq<(K, V)>)
    ensures Get([(k, v)] + rest, k) == Some(v)
  {
    IndexOfUnique([(k, v)] + rest, k, 0);
  }

  /** Prepending an entry prepends its key. */
  lemma KeysCons<K, V>(k: K, v: V, rest: seq<(K, V)>)
    ensures Keys([(k, v)] + rest) == [k] + Keys(rest)
  {
    var d := [(k, v)] + rest;
    forall j | 0 <= j < |d|
      ensures Keys(d)[j] == ([k] + Keys(rest))[j]
    {
      if j > 0 {
        assert d[j] == rest[j - 1];
      }
    }
  }

  /** Lookup of another key skips the first entry. */
  lemma GetTail<K, V>(k: K, v: V, rest: seq<(K, V)>, other: K)
    requires other != k
    ensures Get([(k, v)] + rest, other) == Get(rest, other)
  {
    var d := [(k, v)] + rest;
    KeysCons(k, v, rest);
    assert HasKey(d, other) == HasKey(rest, other);
    if HasKey(rest, other) {
      var i := IndexOf(rest, other);
      forall m | 0 <= m < i + 1
        ensures d[m].0 != other
      {
        if m > 0 {
          assert d[m] == rest[m - 1];
        }
      }
      IndexOfUnique(d, other, i + 1);
    }
  }

  /** In a dict with distinct keys the entry at position `i` is the one `Get` finds. */
  lemma GetAt<K, V>(d: seq<(K, V)>, i: nat)
    requires DistinctKeys(d) && i < |d|
    ensures Get(d, d[i].0) == Some(d[i].1)
  {
    IndexOfUnique(d, d[i].0, i);
  }

  /** Rebinding the value at position `i` keeps the keys. */
  lemma KeysUpdate<K, V>(d: seq<(K, V)>, i: nat, v: V)
    requires i < |d|
    ensures Keys(d[i := (d[i].0, v)]) == Keys(d)
  {
    var r := d[i := (d[i].0, v)];
    assert forall j :: 0 <= j < |d| ==> Keys(r)[j] == Keys(d)[j];
  }

  /** Appending an entry appends its key. */
  lemma KeysAppend<K, V>(d: seq<(K, V)>, k: K, v: V)
    ensures Keys(d + [(k, v)]) == Keys(d) + [k]
  {
    assert (d + [(k, v)])[..|d|] == d;
  }

  /** Rebinding the value at position `i` leaves every other key's lookup alone. */
  lemma GetUpdateOther<K, V>(d: seq<(K, V)>, i: nat, v: V, other: K)
    requires i < |d| && other != d[i].0
    ensures Get(d[i := (d[i].0, v)], other) == Get(d, other)
  {
    var r := d[i := (d[i].0, v)];
    KeysUpdate(d, i, v);
    if HasKey(d, other) {
      var j := IndexOf(d, other);
      IndexOfUnique(r, other, j);
    }
  }

  /** Appending an entry leaves every other key's lookup alone. */
  lemma GetAppendOther<K, V>(d: seq<(K, V)>, k: K, v: V, other: K)
    requires other != k
    ensures Get(d + [(k, v)], other) == Get(d, other)
  {
    var r := d + [(k, v)];
    KeysAppend(d, k, v);
    if HasKey(d, other) {
      var j := IndexOf(d, other);
      IndexOfUnique(r, other, j);
    }
  }

  lemma GetUpdateOthers<K, V>(d: seq<(K, V)>, i: nat, v: V)
    requires i < |d|
    ensures forall other :: other != d[i].0 ==> Get(d[i := (d[i].0, v)], other) == Get(d, other)
  {
    forall other | other != d[i].0 {
      GetUpdateOther(d, i, v, other);
    }
  }

  lemma GetAppendOthers<K, V>(d: seq<(K, V)>, k: K, v: V)
    ensures forall other :: other != k ==> Get(d + [(k, v)], other) == Get(d, other)
  {
    forall other | other != k {
      GetAppendOther(d, k, v, other);
    }
  }

  /** `d[k] = v`: rebinds an existing key in place, otherwise appends it. */
  function Put<K(==,!new), V>(d: seq<(K, V)>, k: K, v: V): (r: seq<(K, V)>)
    ensures DistinctKeys(d) ==> DistinctKeys(r)
    ensures Get(r, k) == Some(v)
    ensures forall k' :: k' != k ==> Get(r, k') == Get(d, k')
    ensures HasKey(d, k) ==> Keys(r) == Keys(d)
    ensures !HasKey(d, k) ==> Keys(r) == Keys(d) + [k]
  {
    if HasKey(d, k) then
      var i := IndexOf(d, k);
      var r := d[i := (k, v)];
      KeysUpdate(d, i, v);
      IndexOfUnique(r, k, i);
      GetUpdateOthers(d, i, v);
      assert forall j :: 0 <= j < |d| ==> r[j].0 == d[j].0;
      r
    else
      var r := d + [(k, v)];
      KeysAppend(d, k, v);
      assert forall m :: 0 <= m < |d| ==> d[m].0 == Keys(d)[m];
      IndexOfUnique(r, k, |d|);
      GetAppendOthers(d, k, v);
      r
  }

  /** Every entry after `d[k] = v` is the new binding or an entry of `d`. */
  lemma PutEntries<K(!new), V>(d: seq<(K, V)>, k: K, v: V)
    ensures forall i :: 0 <= i < |Put(d, k, v)| ==> Put(d, k, v)[i] == (k, v) || Put(d, k, v)[i] in d
  {
    var r := Put(d, k, v);
    if HasKey(d, k) {
      var i := IndexOf(d, k);
      assert r == d[i := (k, v)];
      assert forall j :: 0 <= j < |r| && j != i ==> r[j] == d[j];
    } else {
      assert r == d + [(k, v)];
      assert forall j :: 0 <= j < |d| ==> r[j] == d[j];
    }
  }

  /** The values paired with key `k`, in order. */
  function ValuesFor<K(==), V>(xs: seq<(K, V)>, k: K): seq<V>
  {
    if |xs| == 0 then []
    else ValuesFor(xs[..|xs| - 1], k) + (if xs[|xs| - 1].0 == k then [xs[|xs| - 1].1] else [])
  }

  /** A value is listed under `k` iff some pair of the input carries `k` and that value. */
  lemma ValuesForMember<K, V>(xs: seq<(K, V)>, k: K, v: V)
    ensures v in ValuesFor(xs, k) <==> exists j :: 0 <= j < |xs| && xs[j] == (k, v)
  {
    if v in ValuesFor(xs, k) {
      var n :| 0 <= n < |ValuesFor(xs, k)| && ValuesFor(xs, k)[n] == v;
      ValuesForSource(xs, k, n);
    }
    if exists j :: 0 <= j < |xs| && xs[j] == (k, v) {
      var j :| 0 <= j < |xs| && xs[j] == (k, v);
      ValuesForContains(xs, j);
    }
  }

  lemma {:induction false} ValuesForSource<K, V>(xs: seq<(K, V)>, k: K, n: nat)
    requires n < |ValuesFor(xs, k)|
    ensures exists j :: 0 <= j < |xs| && xs[j] == (k, ValuesFor(xs, k)[n])
    decreases |xs|
  {
    var front := xs[..|xs| - 1];
    var vf := ValuesFor(front, k);
    if n < |vf| {
      ValuesForSource(front, k, n);
      var j :| 0 <= j < |front| && front[j] == (k, vf[n]);
      assert xs[j] == front[j];
    } else {
      assert xs[|xs| - 1] == (k, ValuesFor(xs, k)[n]);
    }
  }

  lemma {:induction false} ValuesForContains<K, V>(xs: seq<(K, V)>, j: nat)
    requires j < |xs|
    ensures xs[j].1 in ValuesFor(xs, xs[j].0)
    decreases |xs|
  {
    if j < |xs| - 1 {
      assert xs[..|xs| - 1][j] == xs[j];
      ValuesForContains(xs[..|xs| - 1], j);
    }
  }

  /**
   Grouping with `defaultdict(list)`: `for k, v in xs: groups[k].append(v)`.
   Keys come in order of first appearance.
   */
  function GroupBy<K(==,!new), V>(xs: seq<(K, V)>): (g: seq<(K, seq<V>)>)
    ensures DistinctKeys(g)
    ensures Keys(g) == FirstAppearances(Keys(xs))
    ensures forall k :: GetOr(g, k, []) == ValuesFor(xs, k)
    ensures forall i :: 0 <= i < |g| ==> |g[i].1| > 0
  {
    if |xs| == 0 then []
    else
      var g := GroupBy(xs[..|xs| - 1]);
      var (k, v) := xs[|xs| - 1];
      GroupStep(xs, g);
      Put(g, k, GetOr(g, k, []) + [v])
  }

  /** One `groups[k].append(v)` step, for the last pair of `xs`, keeps every property of a grouping. */
  lemma GroupStep<K(!new), V>(xs: seq<(K, V)>, g: seq<(K, seq<V>)>)
    requires |xs| > 0
    requires DistinctKeys(g) && Keys(g) == FirstAppearances(Keys(xs[..|xs| - 1]))
    requires forall k' :: GetOr(g, k', []) == ValuesFor(xs[..|xs| - 1], k')
    requires forall i :: 0 <= i < |g| ==> |g[i].1| > 0
    ensures var k := xs[|xs| - 1].0;
      var r := Put(g, k, GetOr(g, k, []) + [xs[|xs| - 1].1]);
      && DistinctKeys(r)
      && Keys(r) == FirstAppearances(Keys(xs))
      && (forall k' :: GetOr(r, k', []) == ValuesFor(xs, k'))
      && (forall i :: 0 <= i < |r| ==> |r[i].1| > 0)
  {
    var front := xs[..|xs| - 1];
    var k, v := xs[|xs| - 1].0, xs[|xs| - 1].1;
    assert xs == front + [(k, v)];
    GroupSnoc(front, g, k, v);
  }

  /** `GroupStep` with the last pair written out. */
  lemma GroupSnoc<K(!new), V>(front: seq<(K, V)>, g: seq<(K, seq<V>)>, k: K, v: V)
    requires DistinctKeys(g) && Keys(g) == FirstAppearances(Keys(front))
    requires forall k' :: GetOr(g, k', []) == ValuesFor(front, k')
    requires forall i :: 0 <= i < |g| ==> |g[i].1| > 0
    ensures var r := Put(g, k, GetOr(g, k, []) + [v]);
      && DistinctKeys(r)
      && Keys(r) == FirstAppearances(Keys(front + [(k, v)]))
      && (forall k' :: GetOr(r, k', []) == ValuesFor(front + [(k, v)], k'))
      && (forall i :: 0 <= i < |r| ==> |r[i].1| > 0)
  {
    var xs := front + [(k, v)];
    assert Keys(xs) == Keys(front) + [k];
    assert Keys(xs)[..|xs| - 1] == Keys(front);
    assert HasKey(g, k) <==> k in Keys(front);
    GroupStepValues(front, g, k, v);
    GroupStepNonEmpty(g, k, v);
  }

  /** One `groups[k].append(v)` step keeps every group equal to the values paired with its key. */
  lemma GroupStepValues<K(!new), V>(front: seq<(K, V)>, g: seq<(K, seq<V>)>, k: K, v: V)
    requires forall k' :: GetOr(g, k', []) == ValuesFor(front, k')
    ensures forall k' :: GetOr(Put(g, k, GetOr(g, k, []) + [v]), k', []) == ValuesFor(front + [(k, v)], k')
  {
    var xs := front + [(k, v)];
    var r := Put(g, k, GetOr(g, k, []) + [v]);
    assert xs[..|xs| - 1] == front;
    forall k' ensures GetOr(r, k', []) == ValuesFor(xs, k') {
      if k' == k {
        assert GetOr(r, k', []) == GetOr(g, k, []) + [v];
      } else {
        assert Get(r, k') == Get(g, k');
      }
    }
  }

  /** One `groups[k].append(v)` step leaves no group empty. */
  lemma GroupStepNonEmpty<K(!new), V>(g: seq<(K, seq<V>)>, k: K, v: V)
    requires forall i :: 0 <= i < |g| ==> |g[i].1| > 0
    ensures forall i :: 0 <= i < |Put(g, k, GetOr(g, k, []) + [v])| ==> |Put(g, k, GetOr(g, k, []) + [v])[i].1| > 0
  {
    var grown := GetOr(g, k, []) + [v];
    var r := Put(g, k, grown);
    PutEntries(g, k, grown);
    forall i | 0 <= i < |r|
      ensures |r[i].1| > 0
    {
      if r[i] != (k, grown) {
        var j :| 0 <= j < |g| && g[j] == r[i];
      }
    }
  }

  /** Each key once, in order of first appearance. */
  function FirstAppearances<K(==,!new)>(ks: seq<K>): (r: seq<K>)
    ensures forall k :: k in r <==> k in ks
  {
    if |ks| == 0 then []
    else
      var r := FirstAppearances(ks[..|ks| - 1]);
      if ks[|ks| - 1] in ks[..|ks| - 1] then r else r + [ks[|ks| - 1]]
  }

  /** A key is grouped iff some pair carries it. */
  lemma GroupByHasKey<K(!new), V>(xs: seq<(K, V)>, k: K)
    ensures HasKey(GroupBy(xs), k) <==> k in Keys(xs)
  {
  }

  /** The group of the key at position `i` holds exactly the values paired with that key. */
  lemma GroupAt<K(!new), V>(xs: seq<(K, V)>, i: nat)
    requires i < |GroupBy(xs)|
    ensures GroupBy(xs)[i].1 == ValuesFor(xs, GroupBy(xs)[i].0)
  {
    var g := GroupBy(xs);
    GetAt(g, i);
    assert GetOr(g, g[i].0, []) == g[i].1;
  }

  /** The pair at position `p` lands in the group of its key, which holds every value paired with that key. */
  lemma GroupOf<K(!new), V>(xs: seq<(K, V)>, p: nat) returns (gi: nat)
    requires p < |xs|
    ensures gi < |GroupBy(xs)| && GroupBy(xs)[gi].0 == xs[p].0
    ensures GroupBy(xs)[gi].1 == ValuesFor(xs, xs[p].0)
    ensures xs[p].1 in GroupBy(xs)[gi].1
  {
    var g := GroupBy(xs);
    var k := xs[p].0;
    ValuesForContains(xs, p);
    assert GetOr(g, k, []) == ValuesFor(xs, k);
    assert HasKey(g, k);
    gi := IndexOf(g, k);
    GroupAt(xs, gi);
  }

  /** Sizes of the groups, in group order. */
  function Sizes<K, V>(g: seq<(K, seq<V>)>): (s: seq<nat>)
    ensures |s| == |g|
    ensures forall i :: 0 <= i < |g| ==> s[i] == |g[i].1|
  {
    if |g| == 0 then [] else Sizes(g[..|g| - 1]) + [|g[|g| - 1].1|]
  }

  lemma {:induction false} SumNatIncrement(s: seq<nat>, i: nat)
    requires i < |s|
    ensures SumNat(s[i := s[i] + 1]) == SumNat(s) + 1
    decreases |s|
  {
    if i < |s| - 1 {
      assert s[i := s[i] + 1][..|s| - 1] == s[..|s| - 1][i := s[i] + 1];
      SumNatIncrement(s[..|s| - 1], i);
    }
    else {
      assert s[i := s[i] + 1][..|s| - 1] == s[..|s| - 1];
    }
  }

  /** Appending one value to one group grows the total size by one. */
  lemma PutAppendSize<K(!new), V>(g: seq<(K, seq<V>)>, k: K, v: V)
    ensures SumNat(Sizes(Put(g, k, GetOr(g, k, []) + [v]))) == SumNat(Sizes(g)) + 1
  {
    if HasKey(g, k) {
      var i := IndexOf(g, k);
      var r := g[i := (k, g[i].1 + [v])];
      assert Put(g, k, GetOr(g, k, []) + [v]) == r;
      SizesUpdate(g, i, v);
      SumNatIncrement(Sizes(g), i);
    } else {
      assert GetOr(g, k, []) + [v] == [v];
      var r := g + [(k, [v])];
      assert Put(g, k, GetOr(g, k, []) + [v]) == r;
      assert r[..|g|] == g;
      SumNatAppend(Sizes(g), [1]);
    }
  }

  lemma SizesUpdate<K, V>(g: seq<(K, seq<V>)>, i: nat, v: V)
    requires i < |g|
    ensures Sizes(g[i := (g[i].0, g[i].1 + [v])]) == Sizes(g)[i := Sizes(g)[i] + 1]
  {
  }

  /** Grouping neither drops nor duplicates an item: the group sizes add up to the input length. */
  lemma {:induction false} GroupByPartition<K(!new), V>(xs: seq<(K, V)>)
    ensures SumNat(Sizes(GroupBy(xs))) == |xs|
    decreases |xs|
  {
    if |xs| > 0 {
      var front := xs[..|xs| - 1];
      var g := GroupBy(front);
      var (k, v) := xs[|xs| - 1];
      assert GroupBy(xs) == Put(g, k, GetOr(g, k, []) + [v]);
      GroupByPartition(front);
      PutAppendSize(g, k, v);
    }
  }

  /**
   `max(range(len(scores)), key=scores.__getitem__)`: Python's `max` keeps the
   first element of maximal score, so the result beats every earlier element
   strictly and no later element beats it.
   */
  function ArgMax(scores: seq<int>): (i: nat)
    requires |scores| > 0
    ensures i < |scores|
    ensures forall j :: 0 <= j < |scores| ==> scores[j] <= scores[i]
    ensures forall j :: 0 <= j < i ==> scores[j] < scores[i]
  {
    if |scores| == 1 then 0
    else
      var i := ArgMax(scores[..|scores| - 1]);
      if scores[|scores| - 1] > scores[i] then |scores| - 1 else i
  }
}
