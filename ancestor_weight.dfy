/**
 * The value the counting pass gives each node: the sum, over its direct
 * parents p, of 1 + the value of p. A shared ancestor is therefore counted
 * once for every path that reaches it; the value is not the size of the set
 * of distinct ancestors (see AncestorsBoundedByWeight and Diamond below).
 *
 * The parent relation must be acyclic. That is expressed by a ghost `rank`
 * under which every parent ranks strictly below its child; the rank is also
 * the termination measure of every recursion over the graph.
 */
module AncestorWeight {
  import opened Types

  ghost predicate Ranked(e: Edges, rank: map<TxId, nat>)
  {
    && (forall t :: t in e ==> t in rank)
    && (forall t, p :: t in e && p in e[t] ==> p in e && rank[p] < rank[t])
  }

  /**
   * The ancestor count of `t`; zero exactly for a node without parents,
   * since each parent contributes at least one.
   */
  ghost function Weight(e: Edges, rank: map<TxId, nat>, t: TxId): (r: nat)
    requires Ranked(e, rank) && t in e
    ensures r == 0 <==> e[t] == {}
    decreases rank[t], 1
  {
    SumWeights(e, rank, t, e[t])
  }

  /** The sum of 1 + Weight(p) over the parents `ps` of `t`, in no particular order. */
  ghost function SumWeights(e: Edges, rank: map<TxId, nat>, t: TxId, ps: set<TxId>): (r: nat)
    requires Ranked(e, rank) && t in e && ps <= e[t]
    decreases rank[t], 0, ps
  {
    if ps == {} then 0
    else
      var p :| p in ps;
      1 + Weight(e, rank, p) + SumWeights(e, rank, t, ps - {p})
  }

  /** The sum does not depend on the order the parents are visited in: any parent may be taken out first. */
  lemma {:induction false} SumWeightsSplit(e: Edges, rank: map<TxId, nat>, t: TxId, ps: set<TxId>, x: TxId)
    requires Ranked(e, rank) && t in e && ps <= e[t] && x in ps
    ensures SumWeights(e, rank, t, ps) == 1 + Weight(e, rank, x) + SumWeights(e, rank, t, ps - {x})
    decreases ps
  {
    var y :| y in ps && SumWeights(e, rank, t, ps) == 1 + Weight(e, rank, y) + SumWeights(e, rank, t, ps - {y});
    if y != x {
      SumWeightsSplit(e, rank, t, ps - {y}, x);
      SumWeightsSplit(e, rank, t, ps - {x}, y);
      assert ps - {y} - {x} == ps - {x} - {y};
    }
  }

  /** Each parent contributes at least one. */
  lemma {:induction false} SumWeightsAtLeastSize(e: Edges, rank: map<TxId, nat>, t: TxId, ps: set<TxId>)
    requires Ranked(e, rank) && t in e && ps <= e[t]
    ensures SumWeights(e, rank, t, ps) >= |ps|
    decreases ps
  {
    if ps != {} {
      var p :| p in ps;
      SumWeightsSplit(e, rank, t, ps, p);
      SumWeightsAtLeastSize(e, rank, t, ps - {p});
    }
  }

  /** A node's count is at least its number of direct parents. */
  lemma WeightAtLeastParents(e: Edges, rank: map<TxId, nat>, t: TxId)
    requires Ranked(e, rank) && t in e
    ensures Weight(e, rank, t) >= |e[t]|
  {
    SumWeightsAtLeastSize(e, rank, t, e[t]);
  }

  /** The count is the same whichever ranking witnesses acyclicity. */
  lemma {:induction false} WeightRankIndependent(e: Edges, r1: map<TxId, nat>, r2: map<TxId, nat>, t: TxId)
    requires Ranked(e, r1) && Ranked(e, r2) && t in e
    ensures Weight(e, r1, t) == Weight(e, r2, t)
    decreases r1[t], 1
  {
    SumWeightsRankIndependent(e, r1, r2, t, e[t]);
  }

  lemma {:induction false} SumWeightsRankIndependent(e: Edges, r1: map<TxId, nat>, r2: map<TxId, nat>, t: TxId, ps: set<TxId>)
    requires Ranked(e, r1) && Ranked(e, r2) && t in e && ps <= e[t]
    ensures SumWeights(e, r1, t, ps) == SumWeights(e, r2, t, ps)
    decreases r1[t], 0, ps
  {
    if ps != {} {
      var p :| p in ps;
      SumWeightsSplit(e, r1, t, ps, p);
      SumWeightsSplit(e, r2, t, ps, p);
      WeightRankIndependent(e, r1, r2, p);
      SumWeightsRankIndependent(e, r1, r2, t, ps - {p});
    }
  }

  /**
   * The same sum read off stored counts: 1 + c[p] over the parents `ps`, in no
   * particular order.
   */
  ghost function CountSum(c: map<TxId, nat>, ps: set<TxId>): (r: nat)
    requires ps <= c.Keys
    decreases ps
  {
    if ps == {} then 0
    else
      var p :| p in ps;
      1 + c[p] + CountSum(c, ps - {p})
  }

  /** Where every parent in `ps` stores its weight, the stored sum is the weight sum. */
  lemma {:induction false} CountSumOfWeights(e: Edges, rank: map<TxId, nat>, c: map<TxId, nat>, t: TxId, ps: set<TxId>)
    requires Ranked(e, rank) && t in e && ps <= e[t] && ps <= c.Keys
    requires forall p :: p in ps ==> c[p] == Weight(e, rank, p)
    ensures CountSum(c, ps) == SumWeights(e, rank, t, ps)
    decreases ps
  {
    if ps != {} {
      var p :| p in ps && CountSum(c, ps) == 1 + c[p] + CountSum(c, ps - {p});
      SumWeightsSplit(e, rank, t, ps, p);
      CountSumOfWeights(e, rank, c, t, ps - {p});
    }
  }

  /** The distinct nodes reachable from `t` by following parent edges, `t` excluded. */
  ghost function Ancestors(e: Edges, rank: map<TxId, nat>, t: TxId): set<TxId>
    requires Ranked(e, rank) && t in e
    decreases rank[t], 1
  {
    AncestorsVia(e, rank, t, e[t])
  }

  /** The parents `ps` of `t` together with all their ancestors. */
  ghost function AncestorsVia(e: Edges, rank: map<TxId, nat>, t: TxId, ps: set<TxId>): set<TxId>
    requires Ranked(e, rank) && t in e && ps <= e[t]
    decreases rank[t], 0, ps
  {
    if ps == {} then {}
    else
      var p :| p in ps;
      {p} + Ancestors(e, rank, p) + AncestorsVia(e, rank, t, ps - {p})
  }

  lemma UnionSize(a: set<TxId>, b: set<TxId>)
    ensures |a + b| <= |a| + |b|
  {
    assert a + b == a + (b - a);
    assert |a + (b - a)| == |a| + |b - a|;
    SubsetSize(b - a, b);
  }

  lemma {:induction false} SubsetSize(a: set<TxId>, b: set<TxId>)
    requires a <= b
    ensures |a| <= |b|
    decreases b
  {
    if a != {} {
      var x :| x in a;
      SubsetSize(a - {x}, b - {x});
    }
  }

  /** Counting per path never undercounts: the weight is at least the number of distinct ancestors. */
  lemma {:induction false} AncestorsBoundedByWeight(e: Edges, rank: map<TxId, nat>, t: TxId)
    requires Ranked(e, rank) && t in e
    ensures |Ancestors(e, rank, t)| <= Weight(e, rank, t)
    decreases rank[t], 1
  {
    AncestorsViaBoundedBySum(e, rank, t, e[t]);
  }

  lemma {:induction false} AncestorsViaBoundedBySum(e: Edges, rank: map<TxId, nat>, t: TxId, ps: set<TxId>)
    requires Ranked(e, rank) && t in e && ps <= e[t]
    ensures |AncestorsVia(e, rank, t, ps)| <= SumWeights(e, rank, t, ps)
    decreases rank[t], 0, ps
  {
    if ps != {} {
      var p :| p in ps && AncestorsVia(e, rank, t, ps)
        == {p} + Ancestors(e, rank, p) + AncestorsVia(e, rank, t, ps - {p});
      SumWeightsSplit(e, rank, t, ps, p);
      AncestorsBoundedByWeight(e, rank, p);
      AncestorsViaBoundedBySum(e, rank, t, ps - {p});
      UnionSize({p}, Ancestors(e, rank, p));
      UnionSize({p} + Ancestors(e, rank, p), AncestorsVia(e, rank, t, ps - {p}));
    }
  }

  /**
   * Nodes A, B, C with B -> A and C -> {A, B}: the counts are 0, 1 and 3, while
   * C has only two distinct ancestors, because A is reached along two paths.
   */
  lemma Diamond()
    ensures var e: Edges := map["A" := {}, "B" := {"A"}, "C" := {"A", "B"}];
            var rank: map<TxId, nat> := map["A" := 0, "B" := 1, "C" := 2];
            && Ranked(e, rank)
            && Weight(e, rank, "A") == 0
            && Weight(e, rank, "B") == 1
            && Weight(e, rank, "C") == 3
            && Ancestors(e, rank, "C") == {"A", "B"}
  {
    var e: Edges := map["A" := {}, "B" := {"A"}, "C" := {"A", "B"}];
    var rank: map<TxId, nat> := map["A" := 0, "B" := 1, "C" := 2];
    assert "A" != "B" && "A" != "C" && "B" != "C";
    assert Ranked(e, rank);
    assert Weight(e, rank, "A") == 0;
    SumWeightsSplit(e, rank, "B", {"A"}, "A");
    assert {"A"} - {"A"} == {};
    assert Weight(e, rank, "B") == 1;
    SumWeightsSplit(e, rank, "C", {"A", "B"}, "A");
    assert {"A", "B"} - {"A"} == {"B"};
    SumWeightsSplit(e, rank, "C", {"B"}, "B");
    assert {"B"} - {"B"} == {};
    assert Weight(e, rank, "C") == 3;
    assert Ancestors(e, rank, "A") == {};
    assert Ancestors(e, rank, "B") == {"A"};
    AncestorsViaAnyOrder(e, rank, "C", {"A", "B"}, "A");
    AncestorsViaAnyOrder(e, rank, "C", {"B"}, "B");
  }

  /** Like SumWeightsSplit, for the distinct-ancestor set. */
  lemma {:induction false} AncestorsViaAnyOrder(e: Edges, rank: map<TxId, nat>, t: TxId, ps: set<TxId>, x: TxId)
    requires Ranked(e, rank) && t in e && ps <= e[t] && x in ps
    ensures AncestorsVia(e, rank, t, ps) == {x} + Ancestors(e, rank, x) + AncestorsVia(e, rank, t, ps - {x})
    decreases ps
  {
    var y :| y in ps && AncestorsVia(e, rank, t, ps)
      == {y} + Ancestors(e, rank, y) + AncestorsVia(e, rank, t, ps - {y});
    if y != x {
      AncestorsViaAnyOrder(e, rank, t, ps - {y}, x);
      AncestorsViaAnyOrder(e, rank, t, ps - {x}, y);
      assert ps - {y} - {x} == ps - {x} - {y};
    }
  }

  /** Every ancestor of `t` is a node ranked strictly below `t`. */
  lemma {:induction false} AncestorsRankedBelow(e: Edges, rank: map<TxId, nat>, t: TxId)
    requires Ranked(e, rank) && t in e
    ensures forall a :: a in Ancestors(e, rank, t) ==> a in e && rank[a] < rank[t]
    decreases rank[t], 1
  {
    AncestorsViaRankedBelow(e, rank, t, e[t]);
  }

  lemma {:induction false} AncestorsViaRankedBelow(e: Edges, rank: map<TxId, nat>, t: TxId, ps: set<TxId>)
    requires Ranked(e, rank) && t in e && ps <= e[t]
    ensures forall a :: a in AncestorsVia(e, rank, t, ps) ==> a in e && rank[a] < rank[t]
    decreases rank[t], 0, ps
  {
    if ps != {} {
      var p :| p in ps && AncestorsVia(e, rank, t, ps)
        == {p} + Ancestors(e, rank, p) + AncestorsVia(e, rank, t, ps - {p});
      AncestorsRankedBelow(e, rank, p);
      AncestorsViaRankedBelow(e, rank, t, ps - {p});
    }
  }

  /** A parent of `t`, and every ancestor of that parent, is an ancestor of `t`. */
  lemma ParentAncestors(e: Edges, rank: map<TxId, nat>, t: TxId, p: TxId)
    requires Ranked(e, rank) && t in e && p in e[t]
    ensures p in e && {p} + Ancestors(e, rank, p) <= Ancestors(e, rank, t)
  {
    AncestorsViaAnyOrder(e, rank, t, e[t], p);
  }

  /**
   * A chain in which each node's only parent is the node before it: the counts
   * along the chain are 0, 1, 2, ...
   */
  lemma {:induction false} ChainWeight(e: Edges, rank: map<TxId, nat>, chain: seq<TxId>, i: nat)
    requires Ranked(e, rank) && i < |chain|
    requires forall k :: 0 <= k < |chain| ==> chain[k] in e
    requires e[chain[0]] == {}
    requires forall k :: 0 < k < |chain| ==> e[chain[k]] == {chain[k - 1]}
    ensures Weight(e, rank, chain[i]) == i
  {
    if i > 0 {
      ChainWeight(e, rank, chain, i - 1);
      SumWeightsSplit(e, rank, chain[i], {chain[i - 1]}, chain[i - 1]);
      assert {chain[i - 1]} - {chain[i - 1]} == {};
    }
  }
}
