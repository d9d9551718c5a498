/**
 * The ancestry graph of one block: a node per transaction id, holding its
 * ancestor count, its set of parents inside the block and whether the
 * counting pass has finished it. The Python dict of node dicts is split into
 * one map per node field; `order` keeps the dict's insertion order, which the
 * counting pass iterates in and the ranking breaks ties by.
 */
module Ancestry {
  import opened Types
  import opened Seeding
  import opened EdgeFiltering
  import opened AncestorWeight
  import opened Ranking
  import opened Pagination

  /**
   * Node fields that agree on the node set, which `ids` lists once each;
   * parents are nodes.
   */
  ghost predicate WellFormed(ids: seq<TxId>, c: map<TxId, nat>, e: Edges, v: map<TxId, bool>)
  {
    && Distinct(ids)
    && (forall t :: t in c <==> t in ids)
    && e.Keys == c.Keys
    && v.Keys == c.Keys
    && Closed(e)
  }

  /** The seeded fields are well formed: every node is fresh, so no edge leaves the graph. */
  lemma SeededWellFormed(txIds: seq<TxId>, c: map<TxId, nat>, e: Edges, v: map<TxId, bool>)
    requires forall t :: t in c <==> t in txIds
    requires e.Keys == c.Keys && v.Keys == c.Keys
    requires forall t :: t in e ==> e[t] == {}
    ensures WellFormed(Dedup(txIds), c, e, v)
  {
    DedupKeepsEachIdOnce(txIds);
  }

  /** New counts and flags over the same nodes keep the fields well formed. */
  lemma WellFormedNewCounts(
    ids: seq<TxId>, c: map<TxId, nat>, e: Edges, v: map<TxId, bool>, c': map<TxId, nat>, v': map<TxId, bool>)
    requires WellFormed(ids, c, e, v) && c'.Keys == e.Keys && v'.Keys == e.Keys
    ensures WellFormed(ids, c', e, v')
  {
  }

  /** The three node fields have the same keys. */
  ghost predicate SameNodes(e: Edges, c: map<TxId, nat>, v: map<TxId, bool>)
  {
    c.Keys == e.Keys && v.Keys == e.Keys
  }

  /** Every finished node holds its ancestor count. */
  ghost predicate Memoised(e: Edges, c: map<TxId, nat>, v: map<TxId, bool>, rank: map<TxId, nat>)
    requires Ranked(e, rank)
  {
    forall u :: u in v && v[u] && u in e && u in c ==> c[u] == Weight(e, rank, u)
  }

  /** Unfinished nodes outside `skip` ranked at most `bound` have not started counting. */
  ghost predicate Unstarted(c: map<TxId, nat>, v: map<TxId, bool>, rank: map<TxId, nat>, bound: int, skip: set<TxId>)
  {
    forall u :: u in v && u !in skip && !v[u] && u in rank && rank[u] <= bound && u in c ==> c[u] == 0
  }

  /**
   * From the node fields (c0, v0) to (c1, v1), outside `skip`: an unfinished
   * node was unfinished before and kept its count, a finished node stays
   * finished with its count, and a node that became finished is in `within`.
   */
  ghost predicate ChangedOnlyWithin(
    c0: map<TxId, nat>, v0: map<TxId, bool>, c1: map<TxId, nat>, v1: map<TxId, bool>,
    within: set<TxId>, skip: set<TxId>)
  {
    && (forall u :: u in v1 && u !in skip && !v1[u] ==> u in v0 && !v0[u] && u in c0 && u in c1 && c1[u] == c0[u])
    && (forall u :: u in v0 && u !in skip && v0[u] ==> u in v1 && v1[u] && u in c0 && u in c1 && c1[u] == c0[u])
    && (forall u :: u in v1 && u !in skip && v1[u] && u in v0 && !v0[u] ==> u in within)
  }

  /** Two changes in a row, the second within part of what the first may touch. */
  lemma ChangedOnlyWithinTrans(
    c0: map<TxId, nat>, v0: map<TxId, bool>, c1: map<TxId, nat>, v1: map<TxId, bool>,
    c2: map<TxId, nat>, v2: map<TxId, bool>, within: set<TxId>, within': set<TxId>, skip: set<TxId>)
    requires v0.Keys == v1.Keys == v2.Keys && within' <= within
    requires ChangedOnlyWithin(c0, v0, c1, v1, within, skip)
    requires ChangedOnlyWithin(c1, v1, c2, v2, within', skip)
    ensures ChangedOnlyWithin(c0, v0, c2, v2, within, skip)
  {
  }

  /** Marking `t` finished, once its count is its weight, keeps the memo sound. */
  lemma MemoisedFinish(e: Edges, c: map<TxId, nat>, v: map<TxId, bool>, rank: map<TxId, nat>, t: TxId)
    requires Ranked(e, rank) && Memoised(e, c, v, rank) && t in e && t in c && c[t] == Weight(e, rank, t)
    ensures Memoised(e, c, v[t := true], rank)
  {
  }

  /** Finishing the skipped node `t` adds `t` to the nodes that may have changed. */
  lemma ChangedOnlyWithinFinish(
    c0: map<TxId, nat>, v0: map<TxId, bool>, c1: map<TxId, nat>, v1: map<TxId, bool>,
    within: set<TxId>, t: TxId)
    requires t in v0 && t in c0 && t in c1 && !v0[t] && v0.Keys == v1.Keys
    requires ChangedOnlyWithin(c0, v0, c1, v1, within, {t})
    ensures ChangedOnlyWithin(c0, v0, c1, v1[t := true], {t} + within, {})
  {
  }

  /** Every finished node's parents are finished too: the counting pass finishes inputs first. */
  ghost predicate ParentsFinished(e: Edges, v: map<TxId, bool>)
  {
    forall u, p :: u in v && v[u] && u in e && p in e[u] ==> p in v && v[p]
  }

  /** The parents of `t` outside `remaining` are finished. */
  ghost predicate InputsFinished(e: Edges, v: map<TxId, bool>, t: TxId, remaining: set<TxId>)
    requires t in e
  {
    forall p :: p in e[t] && p !in remaining ==> p in v && v[p]
  }

  /** Marking `t` finished once all its parents are keeps every finished node's parents finished. */
  lemma ParentsFinishedFinish(e: Edges, v: map<TxId, bool>, t: TxId)
    requires ParentsFinished(e, v) && t in e && InputsFinished(e, v, t, {})
    ensures ParentsFinished(e, v[t := true])
  {
  }

  /** Finishing `parent` while counting `t` keeps the parents finished so far finished. */
  lemma InputsFinishedStep(
    e: Edges, c0: map<TxId, nat>, v0: map<TxId, bool>, c1: map<TxId, nat>, v1: map<TxId, bool>,
    rank: map<TxId, nat>, within: set<TxId>, t: TxId, remaining: set<TxId>, parent: TxId)
    requires Ranked(e, rank) && t in e && parent in remaining
    requires InputsFinished(e, v0, t, remaining) && ChangedOnlyWithin(c0, v0, c1, v1, within, {t})
    requires parent in v1 && v1[parent]
    ensures InputsFinished(e, v1, t, remaining - {parent})
  {
  }

  /** Marking `t` finished once its inputs are counted keeps every invariant of the pass. */
  lemma FinishLast(
    e: Edges, c0: map<TxId, nat>, v0: map<TxId, bool>, c1: map<TxId, nat>, v1: map<TxId, bool>,
    rank: map<TxId, nat>, t: TxId)
    requires SameNodes(e, c1, v1) && Ranked(e, rank) && t in e && t in v0 && t in c0 && !v0[t]
    requires v0.Keys == v1.Keys && c1[t] == Weight(e, rank, t)
    requires Memoised(e, c1, v1, rank) && ParentsFinished(e, v1) && InputsFinished(e, v1, t, {})
    requires ChangedOnlyWithin(c0, v0, c1, v1, Ancestors(e, rank, t), {t})
    ensures SameNodes(e, c1, v1[t := true])
    ensures Memoised(e, c1, v1[t := true], rank) && ParentsFinished(e, v1[t := true])
    ensures ChangedOnlyWithin(c0, v0, c1, v1[t := true], {t} + Ancestors(e, rank, t), {})
  {
    MemoisedFinish(e, c1, v1, rank, t);
    ParentsFinishedFinish(e, v1, t);
    ChangedOnlyWithinFinish(c0, v0, c1, v1, Ancestors(e, rank, t), t);
  }

  /**
   * The depth-first count of `txid` on node fields `c` (counts) and `v`
   * (finished flags): a finished node is left alone; otherwise each input
   * adds 1 plus that input's own count, finishing the input first, and then
   * `txid` is marked finished. Only `txid` and its unfinished ancestors
   * change, and each of them ends finished with its weight.
   */
  method FinishNode(e: Edges, c: map<TxId, nat>, v: map<TxId, bool>, txid: TxId, ghost rank: map<TxId, nat>)
    returns (c': map<TxId, nat>, v': map<TxId, bool>)
    requires SameNodes(e, c, v) && txid in e && Ranked(e, rank)
    requires Memoised(e, c, v, rank) && Unstarted(c, v, rank, rank[txid], {}) && ParentsFinished(e, v)
    decreases rank[txid], 1
    ensures SameNodes(e, c', v')
    ensures v'[txid] && c'[txid] == Weight(e, rank, txid)
    ensures Memoised(e, c', v', rank) && ParentsFinished(e, v')
    ensures v[txid] ==> c' == c && v' == v
    ensures ChangedOnlyWithin(c, v, c', v', {txid} + Ancestors(e, rank, txid), {})
  {
    c', v' := c, v;
    if v[txid] {
      return;
    }
    var remaining := e[txid];
    while remaining != {}
      invariant SameNodes(e, c', v')
      invariant remaining <= e[txid] && !v'[txid]
      invariant c'[txid] + SumWeights(e, rank, txid, remaining) == Weight(e, rank, txid)
      invariant Memoised(e, c', v', rank) && ParentsFinished(e, v')
      invariant InputsFinished(e, v', txid, remaining)
      invariant Unstarted(c', v', rank, rank[txid], {txid})
      invariant ChangedOnlyWithin(c, v, c', v', Ancestors(e, rank, txid), {txid})
      decreases remaining
    {
      var parent :| parent in remaining;
      ghost var cTop, vTop := c', v';
      SumWeightsSplit(e, rank, txid, remaining, parent);
      c', v' := CountInput(e, c', v', txid, parent, rank);
      ParentAncestors(e, rank, txid, parent);
      ChangedOnlyWithinTrans(c, v, cTop, vTop, c', v', Ancestors(e, rank, txid), {parent} + Ancestors(e, rank, parent), {txid});
      InputsFinishedStep(e, cTop, vTop, c', v', rank, {parent} + Ancestors(e, rank, parent), txid, remaining, parent);
      remaining := remaining - {parent};
    }
    FinishLast(e, c, v, c', v', rank, txid);
    v' := v'[txid := true];
  }

  /** One input `parent` of the unfinished `txid`: add 1, finish `parent`, add its count. */
  method CountInput(e: Edges, c: map<TxId, nat>, v: map<TxId, bool>, txid: TxId, parent: TxId, ghost rank: map<TxId, nat>)
    returns (c': map<TxId, nat>, v': map<TxId, bool>)
    requires SameNodes(e, c, v) && txid in e && parent in e[txid]
    requires Ranked(e, rank) && !v[txid]
    requires Memoised(e, c, v, rank) && Unstarted(c, v, rank, rank[txid], {txid}) && ParentsFinished(e, v)
    decreases rank[txid], 0
    ensures SameNodes(e, c', v')
    ensures !v'[txid] && c'[txid] == c[txid] + 1 + Weight(e, rank, parent)
    ensures parent in v' && v'[parent] && c'[parent] == Weight(e, rank, parent)
    ensures Memoised(e, c', v', rank) && Unstarted(c', v', rank, rank[txid], {txid}) && ParentsFinished(e, v')
    ensures ChangedOnlyWithin(c, v, c', v', {parent} + Ancestors(e, rank, parent), {txid})
  {
    assert parent in e && rank[parent] < rank[txid];
    AncestorsRankedBelow(e, rank, parent);
    var c1 := c[txid := c[txid] + 1];
    var c2;
    c2, v' := FinishNode(e, c1, v, parent, rank);
    AddParentCount(e, c, v, c1, c2, v', rank, txid, parent);
    c' := c2[txid := c2[txid] + c2[parent]];
  }

  /** After `parent` is finished, adding its count to the unfinished `txid` keeps the pass's invariants. */
  lemma AddParentCount(
    e: Edges, c: map<TxId, nat>, v: map<TxId, bool>, c1: map<TxId, nat>, c2: map<TxId, nat>, v2: map<TxId, bool>,
    rank: map<TxId, nat>, txid: TxId, parent: TxId)
    requires SameNodes(e, c, v) && txid in e && parent in e && Ranked(e, rank) && rank[parent] < rank[txid] && !v[txid]
    requires Memoised(e, c, v, rank) && Unstarted(c, v, rank, rank[txid], {txid})
    requires c1 == c[txid := c[txid] + 1]
    requires SameNodes(e, c2, v2) && v2[parent] && c2[parent] == Weight(e, rank, parent)
    requires txid !in Ancestors(e, rank, parent)
    requires Memoised(e, c2, v2, rank) && ChangedOnlyWithin(c1, v, c2, v2, {parent} + Ancestors(e, rank, parent), {})
    ensures var c' := c2[txid := c2[txid] + c2[parent]];
      && SameNodes(e, c', v2)
      && !v2[txid] && c'[txid] == c[txid] + 1 + Weight(e, rank, parent)
      && c'[parent] == Weight(e, rank, parent)
      && Memoised(e, c', v2, rank) && Unstarted(c', v2, rank, rank[txid], {txid})
      && ChangedOnlyWithin(c, v, c', v2, {parent} + Ancestors(e, rank, parent), {txid})
  {
    FrameAfterInput(c, v, c1, c2, v2, rank, {parent} + Ancestors(e, rank, parent), txid, c2[txid] + c2[parent]);
  }

  /**
   * `txid`, unfinished and outside `within`, had its count raised by one
   * before a change within `within`: it is still unfinished with that count,
   * and setting it to `n` is a change within `within` that skips `txid`.
   */
  lemma FrameAfterInput(
    c: map<TxId, nat>, v: map<TxId, bool>, c1: map<TxId, nat>, c2: map<TxId, nat>, v2: map<TxId, bool>,
    rank: map<TxId, nat>, within: set<TxId>, txid: TxId, n: nat)
    requires txid in v && txid in c && !v[txid] && txid !in within && c2.Keys == v2.Keys == v.Keys
    requires txid in rank && Unstarted(c, v, rank, rank[txid], {txid})
    requires c1 == c[txid := c[txid] + 1] && ChangedOnlyWithin(c1, v, c2, v2, within, {})
    ensures !v2[txid] && c2[txid] == c[txid] + 1
    ensures Unstarted(c2[txid := n], v2, rank, rank[txid], {txid})
    ensures ChangedOnlyWithin(c, v, c2[txid := n], v2, within, {txid})
  {
  }

  /**
   * A finished node, with its parents finished and holding their weights,
   * stores the sum of 1 + count over its parents.
   */
  lemma FieldRecurrence(e: Edges, c: map<TxId, nat>, v: map<TxId, bool>, rank: map<TxId, nat>, t: TxId)
    requires SameNodes(e, c, v) && Ranked(e, rank) && t in e && v[t]
    requires Memoised(e, c, v, rank) && ParentsFinished(e, v)
    ensures forall p :: p in e[t] ==> v[p] && c[p] == Weight(e, rank, p)
    ensures c[t] == CountSum(c, e[t])
  {
    CountSumOfWeights(e, rank, c, t, e[t]);
  }

  /**
   * `t` is finished with its weight as count, every parent of it is finished
   * with its weight, so that the stored count of `t` is the sum of 1 + count
   * over its parents, and every ancestor of `t` is finished.
   */
  ghost predicate Settled(e: Edges, c: map<TxId, nat>, v: map<TxId, bool>, rank: map<TxId, nat>, t: TxId)
    requires Ranked(e, rank) && t in e && SameNodes(e, c, v)
  {
    && v[t] && c[t] == Weight(e, rank, t)
    && (forall p :: p in e[t] ==> v[p] && c[p] == Weight(e, rank, p))
    && c[t] == CountSum(c, e[t])
    && (forall a :: a in Ancestors(e, rank, t) ==> a in v && v[a])
  }

  /**
   * Counting `t` took the node fields from (c, v) to (c', v'): `t` is
   * settled, the pass's invariants hold, nothing changed if `t` was already
   * finished, and only `t` and its unfinished ancestors changed, each
   * ending finished.
   */
  ghost predicate Processed(
    e: Edges, c: map<TxId, nat>, v: map<TxId, bool>, c': map<TxId, nat>, v': map<TxId, bool>,
    rank: map<TxId, nat>, t: TxId)
    requires Ranked(e, rank) && t in e
  {
    && SameNodes(e, c', v')
    && Settled(e, c', v', rank, t)
    && Memoised(e, c', v', rank) && ParentsFinished(e, v')
    && (t in v && v[t] ==> c' == c && v' == v)
    && ChangedOnlyWithin(c, v, c', v', {t} + Ancestors(e, rank, t), {})
  }

  /** What `FinishNode` guarantees amounts to `Processed`. */
  lemma FinishedIsProcessed(
    e: Edges, c: map<TxId, nat>, v: map<TxId, bool>, c': map<TxId, nat>, v': map<TxId, bool>,
    rank: map<TxId, nat>, t: TxId)
    requires SameNodes(e, c', v') && Ranked(e, rank) && t in e && v'[t] && c'[t] == Weight(e, rank, t)
    requires Memoised(e, c', v', rank) && ParentsFinished(e, v')
    requires t in v && v[t] ==> c' == c && v' == v
    requires ChangedOnlyWithin(c, v, c', v', {t} + Ancestors(e, rank, t), {})
    ensures Processed(e, c, v, c', v', rank, t)
  {
    FieldRecurrence(e, c', v', rank, t);
    AncestorsFinished(e, v', rank, t);
  }

  /** Every ancestor of a finished node is finished. */
  lemma {:induction false} AncestorsFinished(e: Edges, v: map<TxId, bool>, rank: map<TxId, nat>, t: TxId)
    requires Ranked(e, rank) && v.Keys == e.Keys && ParentsFinished(e, v) && t in e && v[t]
    ensures forall a :: a in Ancestors(e, rank, t) ==> a in v && v[a]
    decreases rank[t], 1
  {
    AncestorsViaFinished(e, v, rank, t, e[t]);
  }

  lemma {:induction false} AncestorsViaFinished(e: Edges, v: map<TxId, bool>, rank: map<TxId, nat>, t: TxId, ps: set<TxId>)
    requires Ranked(e, rank) && v.Keys == e.Keys && ParentsFinished(e, v) && t in e && v[t] && ps <= e[t]
    ensures forall a :: a in AncestorsVia(e, rank, t, ps) ==> a in v && v[a]
    decreases rank[t], 0, ps
  {
    if ps != {} {
      var p :| p in ps && AncestorsVia(e, rank, t, ps)
        == {p} + Ancestors(e, rank, p) + AncestorsVia(e, rank, t, ps - {p});
      AncestorsFinished(e, v, rank, p);
      AncestorsViaFinished(e, v, rank, t, ps - {p});
    }
  }

  /** Counting `t` leaves every node that is neither `t` nor an ancestor of `t` exactly as it was. */
  lemma ProcessedTouchesOnlyAncestors(
    e: Edges, c: map<TxId, nat>, v: map<TxId, bool>, c': map<TxId, nat>, v': map<TxId, bool>,
    rank: map<TxId, nat>, t: TxId, u: TxId)
    requires Ranked(e, rank) && t in e && SameNodes(e, c, v) && Processed(e, c, v, c', v', rank, t)
    requires u in e && u != t && u !in Ancestors(e, rank, t)
    ensures v'[u] == v[u] && c'[u] == c[u]
  {
  }

  /** `FinishNode`, with what its result means for `txid` spelled out as `Processed`. */
  method CountNode(e: Edges, c: map<TxId, nat>, v: map<TxId, bool>, txid: TxId, ghost rank: map<TxId, nat>)
    returns (c': map<TxId, nat>, v': map<TxId, bool>)
    requires SameNodes(e, c, v) && txid in e && Ranked(e, rank)
    requires Memoised(e, c, v, rank) && Unstarted(c, v, rank, rank[txid], {}) && ParentsFinished(e, v)
    ensures c'.Keys == e.Keys && v'.Keys == e.Keys
    ensures Processed(e, c, v, c', v', rank, txid)
  {
    c', v' := FinishNode(e, c, v, txid, rank);
    FinishedIsProcessed(e, c, v, c', v', rank, txid);
  }

  /** Every unfinished node still has count 0. */
  ghost predicate UnfinishedAtZero(c: map<TxId, nat>, v: map<TxId, bool>)
  {
    forall u :: u in v && !v[u] && u in c ==> c[u] == 0
  }

  /** From (c0, v0) to (c1, v1), every finished node stays finished with its count. */
  ghost predicate KeepsFinished(c0: map<TxId, nat>, v0: map<TxId, bool>, c1: map<TxId, nat>, v1: map<TxId, bool>)
  {
    forall u :: u in v0 && v0[u] ==> u in v1 && v1[u] && u in c0 && u in c1 && c1[u] == c0[u]
  }

  lemma UnfinishedAtZeroUnstarted(c: map<TxId, nat>, v: map<TxId, bool>, rank: map<TxId, nat>, bound: int)
    requires UnfinishedAtZero(c, v)
    ensures Unstarted(c, v, rank, bound, {})
  {
  }

  /** What the counting pass needs to know after one node is finished. */
  lemma AfterFinish(
    c0: map<TxId, nat>, v0: map<TxId, bool>, c1: map<TxId, nat>, v1: map<TxId, bool>,
    c2: map<TxId, nat>, v2: map<TxId, bool>, within: set<TxId>)
    requires KeepsFinished(c0, v0, c1, v1) && UnfinishedAtZero(c1, v1)
    requires ChangedOnlyWithin(c1, v1, c2, v2, within, {}) && c2.Keys == v2.Keys
    ensures KeepsFinished(c1, v1, c2, v2) && KeepsFinished(c0, v0, c2, v2) && UnfinishedAtZero(c2, v2)
  {
  }

  /** Every id of `ids` is a finished node. */
  ghost predicate AllFinished(v: map<TxId, bool>, ids: seq<TxId>)
  {
    forall t :: t in ids ==> t in v && v[t]
  }

  /** The first `n` ids of `ids` are finished nodes. */
  ghost predicate PrefixFinished(v: map<TxId, bool>, ids: seq<TxId>, n: int)
  {
    forall j :: 0 <= j < n && j < |ids| ==> ids[j] in v && v[ids[j]]
  }

  lemma PrefixFinishedStep(
    c0: map<TxId, nat>, v0: map<TxId, bool>, c1: map<TxId, nat>, v1: map<TxId, bool>, ids: seq<TxId>, i: int)
    requires 0 <= i < |ids| && PrefixFinished(v0, ids, i) && KeepsFinished(c0, v0, c1, v1)
    requires ids[i] in v1 && v1[ids[i]]
    ensures PrefixFinished(v1, ids, i + 1) && (i + 1 == |ids| ==> AllFinished(v1, ids))
  {
  }

  /** Finishes each of `ids` in turn, as the counting pass does with every node. */
  method FinishAll(e: Edges, c: map<TxId, nat>, v: map<TxId, bool>, ids: seq<TxId>, ghost rank: map<TxId, nat>)
    returns (c': map<TxId, nat>, v': map<TxId, bool>)
    requires SameNodes(e, c, v) && Ranked(e, rank) && (forall t :: t in ids ==> t in e)
    requires Memoised(e, c, v, rank) && UnfinishedAtZero(c, v) && ParentsFinished(e, v)
    ensures SameNodes(e, c', v') && Memoised(e, c', v', rank) && UnfinishedAtZero(c', v') && ParentsFinished(e, v')
    ensures KeepsFinished(c, v, c', v')
    ensures AllFinished(v', ids)
  {
    c', v' := c, v;
    var i := 0;
    while i < |ids|
      invariant 0 <= i <= |ids| && SameNodes(e, c', v')
      invariant Memoised(e, c', v', rank) && UnfinishedAtZero(c', v') && ParentsFinished(e, v')
      invariant KeepsFinished(c, v, c', v')
      invariant PrefixFinished(v', ids, i)
    {
      ghost var c0, v0 := c', v';
      UnfinishedAtZeroUnstarted(c', v', rank, rank[ids[i]]);
      c', v' := FinishNode(e, c', v', ids[i], rank);
      AfterFinish(c, v, c0, v0, c', v', {ids[i]} + Ancestors(e, rank, ids[i]));
      PrefixFinishedStep(c0, v0, c', v', ids, i);
      i := i + 1;
    }
  }

  /** The seeding loop's fields after the ids `prefix`: one fresh node per id, in order of first occurrence. */
  ghost predicate Seeded(prefix: seq<TxId>, ids: seq<TxId>, c: map<TxId, nat>, ps: Edges, v: map<TxId, bool>)
  {
    && ids == Dedup(prefix)
    && (forall t :: t in c <==> t in prefix)
    && ps.Keys == c.Keys && v.Keys == c.Keys
    && (forall t :: t in c ==> c[t] == 0)
    && (forall t :: t in ps ==> ps[t] == {})
    && (forall t :: t in v ==> !v[t])
  }

  /** Seeding one more id keeps the fields seeded. */
  lemma SeededStep(prefix: seq<TxId>, x: TxId, ids: seq<TxId>, c: map<TxId, nat>, ps: Edges, v: map<TxId, bool>)
    requires Seeded(prefix, ids, c, ps, v)
    ensures Seeded(prefix + [x], if x in c then ids else ids + [x], c[x := 0], ps[x := {}], v[x := false])
  {
    DedupSnoc(prefix, x);
  }

  /** One fresh node per id, in order of first occurrence: count 0, no parents, not visited. */
  method SeedNodes(txIds: seq<TxId>) returns (ids: seq<TxId>, c: map<TxId, nat>, ps: Edges, v: map<TxId, bool>)
    ensures WellFormed(ids, c, ps, v)
    ensures ids == Dedup(txIds)
    ensures forall t :: t in c <==> t in txIds
    ensures forall t :: t in c ==> c[t] == 0 && ps[t] == {} && !v[t]
  {
    ids, c, ps, v := [], map[], map[], map[];
    var i := 0;
    while i < |txIds|
      invariant 0 <= i <= |txIds|
      invariant Seeded(txIds[..i], ids, c, ps, v)
    {
      var txid := txIds[i];
      SeededStep(txIds[..i], txid, ids, c, ps, v);
      TakeNext(txIds, i);
      if txid !in c {
        ids := ids + [txid];
      }
      c := c[txid := 0];
      ps := ps[txid := {}];
      v := v[txid := false];
      i := i + 1;
    }
    assert txIds[..i] == txIds;
    SeededWellFormed(txIds, c, ps, v);
  }

  class TransactionAncestry {
    var order: seq<TxId>
    var count: map<TxId, nat>
    var parents: Edges
    var visited: map<TxId, bool>

    /** The node fields agree on the node set, which `order` lists once each; parents are nodes. */
    ghost predicate Valid()
      reads this
    {
      WellFormed(order, count, parents, visited)
    }

    /** Seeds the graph with one fresh node per id (the ids are the block's, fetched by the caller). */
    constructor (txIds: seq<TxId>)
      ensures Valid()
      ensures order == Dedup(txIds)
      ensures forall t :: t in count <==> t in txIds
      ensures forall t :: t in count ==> count[t] == 0 && parents[t] == {} && !visited[t]
    {
      var ids, c, ps, v := SeedNodes(txIds);
      order, count, parents, visited := ids, c, ps, v;
    }

    /** Records the parents of `txid` among its inputs `vin`; false where the lookup of `txid` fails. */
    method ProcessTransaction(txid: TxId, vin: seq<TxId>) returns (ok: bool)
      requires Valid()
      modifies this
      ensures Valid()
      ensures order == old(order) && count == old(count) && visited == old(visited)
      ensures ok <==> AddEdges(old(parents), txid, vin).Some?
      ensures ok ==> AddEdges(old(parents), txid, vin) == Some(parents)
      ensures !ok ==> parents == old(parents)
    {
      if txid in parents {
        AddEdgesNothingNew(parents, txid, []);
      }
      var i := 0;
      while i < |vin|
        invariant 0 <= i <= |vin|
        invariant order == old(order) && count == old(count) && visited == old(visited)
        invariant AddEdges(old(parents), txid, vin[..i]) == Some(parents)
      {
        var inTxid := vin[i];
        assert vin[..i + 1] == vin[..i] + [inTxid];
        AddEdgesSnoc(old(parents), txid, vin[..i], inTxid);
        AddEdgesOne(parents, txid, inTxid);
        if inTxid in parents {
          if txid !in parents {
            assert inTxid in vin;
            return false;
          }
          parents := parents[txid := parents[txid] + {inTxid}];
        }
        i := i + 1;
      }
      assert vin[..i] == vin;
      return true;
    }

    /** Records the edges of each transaction of `txs` in turn, stopping at the first failure. */
    method ProcessTransactions(txs: seq<Transaction>) returns (ok: bool)
      requires Valid()
      modifies this
      ensures Valid()
      ensures order == old(order) && count == old(count) && visited == old(visited)
      ensures (parents, ok) == ApplyTransactions(old(parents), txs)
    {
      var i := 0;
      while i < |txs|
        invariant 0 <= i <= |txs|
        invariant Valid()
        invariant order == old(order) && count == old(count) && visited == old(visited)
        invariant ApplyTransactions(old(parents), txs) == ApplyTransactions(parents, txs[i..])
      {
        assert txs[i..][1..] == txs[i + 1..];
        ok := ProcessTransaction(txs[i].txid, txs[i].vin);
        if !ok {
          return;
        }
        i := i + 1;
      }
      return true;
    }

    /** Requests the page at `start` and records the edges of its transactions. */
    method ProcessPage(start: int, fetch: int -> Option<seq<Transaction>>) returns (ok: bool)
      requires Valid()
      modifies this
      ensures Valid()
      ensures order == old(order) && count == old(count) && visited == old(visited)
      ensures (parents, ok) == ApplyPages(old(parents), [start], fetch)
    {
      var page := fetch(start);
      if page.None? {
        return false;
      }
      ok := ProcessTransactions(page.value);
    }

    /**
     * Requests the block's transactions page by page, starting at 0, 25, 50, ...
     * while below `txCount`, and records their edges. `fetch(start)` stands for
     * the request of the page at `start`; None is a failed request. Stops at
     * the first failure: `starts` ends with the page that failed.
     */
    method GetAllBlockTransactions(txCount: int, fetch: int -> Option<seq<Transaction>>)
      returns (starts: seq<int>, ok: bool)
      requires Valid()
      modifies this
      ensures Valid()
      ensures order == old(order) && count == old(count) && visited == old(visited)
      ensures (parents, ok) == ApplyPages(old(parents), PageStarts(txCount), fetch)
      ensures starts <= PageStarts(txCount)
      ensures ok ==> starts == PageStarts(txCount)
      ensures (parents, ok) == ApplyPages(old(parents), starts, fetch)
      ensures !ok ==> StoppedAtLast(old(parents), starts, fetch)
    {
      starts := [];
      var start := 0;
      while start < txCount
        invariant Valid()
        invariant order == old(order) && count == old(count) && visited == old(visited)
        invariant PageStarts(txCount) == starts + PageStartsFrom(start, txCount)
        invariant ApplyPages(old(parents), starts, fetch) == (parents, true)
        decreases txCount - start
      {
        ghost var e := parents;
        ok := ProcessPage(start, fetch);
        PageStartsStep(starts, start, txCount);
        PagesStep(old(parents), starts, start, PageStartsFrom(start + PageSize, txCount), e, parents, ok, fetch);
        starts := starts + [start];
        if !ok {
          return;
        }
        start := start + PageSize;
      }
      PageStartsStep(starts, start, txCount);
      return starts, true;
    }

    /**
     * Finishes `txid` and, first, every unfinished ancestor of it; the
     * traversal itself is `FinishNode`, run on the current node fields.
     */
    method ProcessTransactionInGraph(txid: TxId, ghost rank: map<TxId, nat>)
      requires Valid() && txid in parents && Ranked(parents, rank)
      requires Memoised(parents, count, visited, rank) && ParentsFinished(parents, visited)
      requires Unstarted(count, visited, rank, rank[txid], {})
      modifies this
      ensures Valid() && order == old(order) && parents == old(parents)
      ensures Processed(parents, old(count), old(visited), count, visited, rank, txid)
    {
      var c, v := CountNode(parents, count, visited, txid, rank);
      WellFormedNewCounts(order, count, parents, visited, c, v);
      count, visited := c, v;
    }

    /** The counting pass: finishes every node, in insertion order. */
    method ProcessTransactionsInGraph(ghost rank: map<TxId, nat>)
      requires Valid() && Ranked(parents, rank)
      requires Memoised(parents, count, visited, rank) && UnfinishedAtZero(count, visited)
      requires ParentsFinished(parents, visited)
      modifies this
      ensures Valid() && order == old(order) && parents == old(parents)
      ensures forall u :: u in visited ==> visited[u] && count[u] == Weight(parents, rank, u)
      ensures forall u :: u in visited ==> count[u] == CountSum(count, parents[u])
      ensures KeepsFinished(old(count), old(visited), count, visited)
    {
      count, visited := FinishAll(parents, count, visited, order, rank);
      forall u | u in visited
        ensures count[u] == CountSum(count, parents[u])
      {
        FieldRecurrence(parents, count, visited, rank, u);
      }
    }

    /**
     * The first `limit` nodes by count, largest first, ties in insertion order,
     * as (id, count) entries; all nodes when `limit` is negative or larger
     * than the graph.
     */
    method LargestAncestrySets(limit: int) returns (top: seq<Entry>)
      requires Valid()
      ensures |top| == if 0 <= limit <= |order| then limit else |order|
      ensures top == SortByCountDesc(EntriesOf(order, count))[..|top|]
      ensures NonIncreasing(top)
      ensures forall i :: 0 <= i < |top| ==> top[i].txid in count && top[i].count == count[top[i].txid]
      ensures forall u :: u in order ==>
        (exists i :: 0 <= i < |top| && top[i].txid == u) ||
        (forall i :: 0 <= i < |top| ==> count[u] <= top[i].count)
    {
      var ranked := SortByCountDesc(EntriesOf(order, count));
      top := [];
      var idx := 0;
      while idx < |ranked|
        invariant 0 <= idx <= |ranked| == |order|
        invariant idx <= limit || limit < 0
        invariant top == ranked[..idx]
      {
        if idx == limit {
          break;
        }
        top := top + [ranked[idx]];
        idx := idx + 1;
      }
      RankingPrefix(order, count, |top|);
    }

    /**
     * The whole run: fetch and record the block's edges, count, rank. The rank
     * witnesses that the graph the fetched transactions produce is acyclic.
     */
    method GetLargestAncestryTransactionSets(
      limit: int, txCount: int, fetch: int -> Option<seq<Transaction>>, ghost rank: map<TxId, nat>)
      returns (top: seq<Entry>, ok: bool)
      requires Valid() && forall u :: u in visited ==> !visited[u] && count[u] == 0
      requires var (e, fetched) := ApplyPages(parents, PageStarts(txCount), fetch); fetched ==> Ranked(e, rank)
      modifies this
      ensures Valid() && order == old(order)
      ensures (parents, ok) == ApplyPages(old(parents), PageStarts(txCount), fetch)
      ensures !ok ==> count == old(count) && visited == old(visited)
      ensures ok ==> Ranked(parents, rank) && forall u :: u in visited ==> visited[u] && count[u] == Weight(parents, rank, u)
      ensures ok ==> |top| == (if 0 <= limit <= |order| then limit else |order|)
      ensures ok ==> top == SortByCountDesc(EntriesOf(order, count))[..|top|]
      ensures !ok ==> top == []
    {
      var starts;
      starts, ok := GetAllBlockTransactions(txCount, fetch);
      if !ok {
        return [], false;
      }
      ProcessTransactionsInGraph(rank);
      top := LargestAncestrySets(limit);
    }
  }
}
