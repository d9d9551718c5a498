/**
 * Ranking nodes by count, largest first. Python's `sorted(..., reverse=True)`
 * is stable: nodes with equal counts keep the graph's insertion order. The
 * sort is modelled as a stable insertion sort whose contract states exactly
 * that: sorted, a permutation, and for every count the nodes with that count
 * in their original relative order.
 */
module Ranking {
  import opened Types

  datatype Entry = Entry(txid: TxId, count: nat)

  predicate NonIncreasing(s: seq<Entry>)
  {
    forall i, j :: 0 <= i < j < |s| ==> s[i].count >= s[j].count
  }

  /** The entries of `s` whose count is `c`, in their order in `s`. */
  function WithCount(s: seq<Entry>, c: nat): seq<Entry>
  {
    if s == [] then []
    else (if s[0].count == c then [s[0]] else []) + WithCount(s[1..], c)
  }

  /** Puts `x` in front of the first entry whose count is not larger than its own. */
  function Insert(x: Entry, s: seq<Entry>): (r: seq<Entry>)
    ensures multiset(r) == multiset(s) + multiset{x}
  {
    if s == [] || s[0].count <= x.count then [x] + s
    else
      assert s == [s[0]] + s[1..];
      [s[0]] + Insert(x, s[1..])
  }

  lemma {:induction false} InsertKeepsOrder(x: Entry, s: seq<Entry>)
    requires NonIncreasing(s)
    ensures NonIncreasing(Insert(x, s))
  {
    if s != [] && s[0].count > x.count {
      InsertKeepsOrder(x, s[1..]);
      var rest := Insert(x, s[1..]);
      assert rest[0] == x || rest[0] == s[1];
      assert rest[0].count <= s[0].count;
    }
  }

  /** Among entries of equal count, `x` lands in front of those already in `s`; other counts are untouched. */
  lemma {:induction false} InsertStable(x: Entry, s: seq<Entry>, c: nat)
    ensures WithCount(Insert(x, s), c) == if x.count == c then [x] + WithCount(s, c) else WithCount(s, c)
  {
    if s == [] || s[0].count <= x.count {
      assert ([x] + s)[1..] == s;
    } else {
      var rest := Insert(x, s[1..]);
      InsertStable(x, s[1..], c);
      assert ([s[0]] + rest)[1..] == rest;
    }
  }

  lemma InsertStableAll(x: Entry, s: seq<Entry>)
    ensures forall c :: WithCount(Insert(x, s), c) == if x.count == c then [x] + WithCount(s, c) else WithCount(s, c)
  {
    forall c {
      InsertStable(x, s, c);
    }
  }

  /** The entries of `s` by count, largest first, ties in their order in `s`. */
  function SortByCountDesc(s: seq<Entry>): (r: seq<Entry>)
    ensures NonIncreasing(r)
    ensures multiset(r) == multiset(s) && |r| == |s|
    ensures forall c :: WithCount(r, c) == WithCount(s, c)
  {
    if s == [] then []
    else
      assert s == [s[0]] + s[1..];
      var sorted := SortByCountDesc(s[1..]);
      InsertKeepsOrder(s[0], sorted);
      InsertStableAll(s[0], sorted);
      var r := Insert(s[0], sorted);
      assert |r| == |multiset(r)|;
      r
  }

  /** One entry per id of `ids`, carrying that id's count. */
  function EntriesOf(ids: seq<TxId>, count: map<TxId, nat>): seq<Entry>
    requires forall t :: t in ids ==> t in count
  {
    seq(|ids|, i requires 0 <= i < |ids| => Entry(ids[i], count[ids[i]]))
  }

  /**
   * After a stable sort by count, the first `n` entries dominate the rest:
   * every entry of the input is either among them or has a count no larger
   * than any of them.
   */
  lemma PrefixDominates(s: seq<Entry>, n: nat, x: Entry)
    requires n <= |SortByCountDesc(s)| && x in s
    ensures var r := SortByCountDesc(s);
            x in r[..n] || forall i :: 0 <= i < n ==> x.count <= r[i].count
  {
    var r := SortByCountDesc(s);
    assert x in multiset(r);
    var j :| 0 <= j < |r| && r[j] == x;
    if j < n {
      assert r[..n][j] == x;
    }
  }

  /** Each entry of the ranking of `ids` is a node of `count` carrying that node's count. */
  lemma RankingCarriesCounts(ids: seq<TxId>, count: map<TxId, nat>)
    requires forall t :: t in ids ==> t in count
    ensures var r := SortByCountDesc(EntriesOf(ids, count));
            forall i :: 0 <= i < |r| ==> r[i].txid in count && r[i].count == count[r[i].txid]
  {
    var entries := EntriesOf(ids, count);
    var r := SortByCountDesc(entries);
    forall i | 0 <= i < |r|
      ensures r[i].txid in count && r[i].count == count[r[i].txid]
    {
      assert r[i] in multiset(entries);
      var k :| 0 <= k < |entries| && entries[k] == r[i];
    }
  }

  /**
   * Every id of `ids` is among the first `n` entries of the ranking, or has a
   * count no larger than any of them.
   */
  lemma RankingPrefixDominates(ids: seq<TxId>, count: map<TxId, nat>, n: nat)
    requires (forall t :: t in ids ==> t in count) && n <= |ids|
    ensures var r := SortByCountDesc(EntriesOf(ids, count));
            forall u :: u in ids ==>
              (exists i :: 0 <= i < n && r[i].txid == u) || (forall i :: 0 <= i < n ==> count[u] <= r[i].count)
  {
    var entries := EntriesOf(ids, count);
    var r := SortByCountDesc(entries);
    forall u | u in ids
      ensures (exists i :: 0 <= i < n && r[i].txid == u) || (forall i :: 0 <= i < n ==> count[u] <= r[i].count)
    {
      var k :| 0 <= k < |ids| && ids[k] == u;
      assert entries[k] == Entry(u, count[u]);
      PrefixDominates(entries, n, entries[k]);
      if Entry(u, count[u]) in r[..n] {
        var i :| 0 <= i < n && r[..n][i] == Entry(u, count[u]);
        assert r[i].txid == u;
      }
    }
  }

  /**
   * The first `n` entries of the ranking of `ids`: largest first, each
   * carrying its node's count, and no id left out has a larger count than
   * any of them.
   */
  lemma RankingPrefix(ids: seq<TxId>, count: map<TxId, nat>, n: nat)
    requires (forall t :: t in ids ==> t in count) && n <= |ids|
    ensures var top := SortByCountDesc(EntriesOf(ids, count))[..n];
            && NonIncreasing(top)
            && (forall i :: 0 <= i < n ==> top[i].txid in count && top[i].count == count[top[i].txid])
            && (forall u :: u in ids ==>
                  (exists i :: 0 <= i < n && top[i].txid == u) || (forall i :: 0 <= i < n ==> count[u] <= top[i].count))
  {
    var r := SortByCountDesc(EntriesOf(ids, count));
    var top := r[..n];
    assert forall i :: 0 <= i < n ==> top[i] == r[i];
    RankingCarriesCounts(ids, count);
    RankingPrefixDominates(ids, count, n);
  }
}
