/**
 * Recording parent edges. An input is recorded as a parent only when its
 * transaction is itself a node of the graph; inputs spending transactions of
 * other blocks are dropped. The node whose edges are recorded must exist as
 * soon as one input is recorded: otherwise the dict lookup raises, which this
 * model reports as a failure (None / false) with nothing changed.
 */
module EdgeFiltering {
  import opened Types

  /** The inputs of `vin` that are nodes of the graph. */
  function KnownInputs(e: Edges, vin: seq<TxId>): set<TxId>
  {
    set i | i in vin && i in e
  }

  /** The graph after processing one transaction, or None if the lookup of `txid` fails. */
  function AddEdges(e: Edges, txid: TxId, vin: seq<TxId>): (r: Option<Edges>)
    ensures r.None? <==> txid !in e && exists i :: i in vin && i in e
    ensures r.Some? ==> r.value.Keys == e.Keys
    ensures r.Some? ==> forall u :: u in e && u != txid ==> r.value[u] == e[u]
    ensures r.Some? && txid in e ==>
      forall p :: p in r.value[txid] <==> p in e[txid] || (p in vin && p in e)
    ensures r.Some? && Closed(e) ==> Closed(r.value)
  {
    var known := KnownInputs(e, vin);
    assert forall i :: i in vin && i in e ==> i in known;
    if txid !in e then
      (if known == {} then Some(e) else None)
    else
      Some(e[txid := e[txid] + known])
  }

  /** Processing the same transaction twice adds nothing the first time did not. */
  lemma AddEdgesIdempotent(e: Edges, txid: TxId, vin: seq<TxId>)
    requires AddEdges(e, txid, vin).Some?
    ensures AddEdges(AddEdges(e, txid, vin).value, txid, vin) == AddEdges(e, txid, vin)
  {
    var e1 := AddEdges(e, txid, vin).value;
    assert KnownInputs(e1, vin) == KnownInputs(e, vin);
    if txid in e {
      assert e1[txid] + KnownInputs(e1, vin) == e1[txid];
      assert e1[txid := e1[txid]] == e1;
    }
  }

  /** An input that is already a parent, or is not a node at all, leaves the graph unchanged. */
  lemma AddEdgesNothingNew(e: Edges, txid: TxId, vin: seq<TxId>)
    requires txid in e
    requires forall i :: i in vin && i in e ==> i in e[txid]
    ensures AddEdges(e, txid, vin) == Some(e)
  {
    assert e[txid] + KnownInputs(e, vin) == e[txid];
    assert e[txid := e[txid]] == e;
  }

  /** Processing a single input `x`: a no-op unless `x` is a node, a failure if `txid` is not. */
  lemma AddEdgesOne(e: Edges, txid: TxId, x: TxId)
    ensures AddEdges(e, txid, [x]) ==
      if x !in e then Some(e)
      else if txid !in e then None
      else Some(e[txid := e[txid] + {x}])
  {
    if x !in e {
      assert KnownInputs(e, [x]) == {};
      if txid in e {
        AddEdgesNothingNew(e, txid, [x]);
      }
    } else {
      assert KnownInputs(e, [x]) == {x};
    }
  }

  /** The inputs are processed one at a time: `vin + [x]` is `vin`, then `x`. */
  lemma AddEdgesSnoc(e: Edges, txid: TxId, vin: seq<TxId>, x: TxId)
    ensures AddEdges(e, txid, vin + [x]) ==
      match AddEdges(e, txid, vin)
      case None => None
      case Some(e1) => AddEdges(e1, txid, [x])
  {
    var k, k' := KnownInputs(e, vin), KnownInputs(e, vin + [x]);
    assert x in e ==> k' == k + {x};
    assert x !in e ==> k' == k;
    if txid in e {
      AddEdgesSnocOfNode(e, txid, k, k', x);
    } else {
      AddEdgesOne(e, txid, x);
    }
  }

  /** The step of `AddEdgesSnoc` for a node `txid`, on the known inputs `k` before and `k'` after `x`. */
  lemma AddEdgesSnocOfNode(e: Edges, txid: TxId, k: set<TxId>, k': set<TxId>, x: TxId)
    requires txid in e
    requires x in e ==> k' == k + {x}
    requires x !in e ==> k' == k
    ensures AddEdges(e[txid := e[txid] + k], txid, [x]) == Some(e[txid := e[txid] + k'])
  {
    var e1 := e[txid := e[txid] + k];
    AddEdgesOne(e1, txid, x);
    if x in e {
      assert e1[txid] + {x} == e[txid] + k';
      assert e1[txid := e1[txid] + {x}] == e[txid := e[txid] + k'];
    }
  }

  /**
   * Processing `tx` cannot fail: its id is a node, or none of its inputs is.
   * Only the node set matters, and processing never changes that.
   */
  predicate Resolvable(e: Edges, tx: Transaction)
  {
    tx.txid in e || forall x :: x in tx.vin ==> x !in e
  }

  /**
   * The graph after processing `txs` in order, and whether every lookup succeeded;
   * processing stops at the first failure.
   */
  function ApplyTransactions(e: Edges, txs: seq<Transaction>): (r: (Edges, bool))
    ensures r.0.Keys == e.Keys
  {
    if txs == [] then (e, true)
    else
      match AddEdges(e, txs[0].txid, txs[0].vin)
      case None => (e, false)
      case Some(e1) => ApplyTransactions(e1, txs[1..])
  }

  /** Processing a list succeeds exactly when every transaction on it can be processed. */
  lemma {:induction false} ApplyTransactionsSucceeds(e: Edges, txs: seq<Transaction>)
    ensures ApplyTransactions(e, txs).1 <==> forall i :: 0 <= i < |txs| ==> Resolvable(e, txs[i])
  {
    if txs != [] {
      match AddEdges(e, txs[0].txid, txs[0].vin)
      case None =>
      case Some(e1) =>
        ApplyTransactionsSucceeds(e1, txs[1..]);
        assert forall i :: 0 < i < |txs| ==> txs[i] == txs[1..][i - 1];
    }
  }

  /**
   * Processing transactions never adds or removes a node, only ever adds
   * parents, and records only parents that are nodes.
   */
  lemma {:induction false} ApplyTransactionsGrowsEdges(e: Edges, txs: seq<Transaction>)
    ensures var r := ApplyTransactions(e, txs).0;
            && r.Keys == e.Keys
            && (forall t :: t in e ==> e[t] <= r[t])
            && (Closed(e) ==> Closed(r))
  {
    if txs != [] {
      match AddEdges(e, txs[0].txid, txs[0].vin)
      case None =>
      case Some(e1) => ApplyTransactionsGrowsEdges(e1, txs[1..]);
    }
  }

  /** The request for a page succeeds and every transaction on it can be processed. */
  predicate PageResolvable(e: Edges, page: Option<seq<Transaction>>)
  {
    page.Some? && forall j :: 0 <= j < |page.value| ==> Resolvable(e, page.value[j])
  }

  /**
   * The graph after fetching and processing the pages that start at `starts`;
   * `fetch` returns None where the request fails.
   */
  function ApplyPages(e: Edges, starts: seq<int>, fetch: int -> Option<seq<Transaction>>): (r: (Edges, bool))
    ensures !r.1 ==> starts != []
    ensures r.1 ==> forall i :: 0 <= i < |starts| ==> fetch(starts[i]).Some?
    decreases |starts|
  {
    if starts == [] then (e, true)
    else
      match fetch(starts[0])
      case None => (e, false)
      case Some(txs) =>
        var (e1, ok) := ApplyTransactions(e, txs);
        if ok then ApplyPages(e1, starts[1..], fetch) else (e1, false)
  }

  /** The request loop succeeds exactly when every page request succeeds and every transaction on it can be processed. */
  lemma {:induction false} ApplyPagesSucceeds(e: Edges, starts: seq<int>, fetch: int -> Option<seq<Transaction>>)
    ensures ApplyPages(e, starts, fetch).1 <==> forall i :: 0 <= i < |starts| ==> PageResolvable(e, fetch(starts[i]))
    decreases |starts|
  {
    if starts != [] {
      match fetch(starts[0])
      case None =>
      case Some(txs) =>
        ApplyTransactionsSucceeds(e, txs);
        var (e1, ok) := ApplyTransactions(e, txs);
        if ok {
          ApplyPagesSucceeds(e1, starts[1..], fetch);
          assert forall i :: 0 < i < |starts| ==> starts[i] == starts[1..][i - 1];
        }
    }
  }

  lemma {:induction false} ApplyPagesGrowsEdges(e: Edges, starts: seq<int>, fetch: int -> Option<seq<Transaction>>)
    decreases |starts|
    ensures var r := ApplyPages(e, starts, fetch).0;
            && r.Keys == e.Keys
            && (forall t :: t in e ==> e[t] <= r[t])
            && (Closed(e) ==> Closed(r))
  {
    if starts != [] {
      match fetch(starts[0])
      case None =>
      case Some(txs) =>
        ApplyTransactionsGrowsEdges(e, txs);
        var (e1, ok) := ApplyTransactions(e, txs);
        if ok {
          ApplyPagesGrowsEdges(e1, starts[1..], fetch);
        }
    }
  }

  /** Requesting `a` then `b`: the pages of `a`, then those of `b` if all of `a` succeeded. */
  lemma {:induction false} ApplyPagesAppend(e: Edges, a: seq<int>, b: seq<int>, fetch: int -> Option<seq<Transaction>>)
    ensures ApplyPages(e, a + b, fetch)
         == var (e1, ok) := ApplyPages(e, a, fetch); if ok then ApplyPages(e1, b, fetch) else (e1, false)
    decreases |a|
  {
    if a == [] {
      assert a + b == b;
    } else {
      assert (a + b)[1..] == a[1..] + b;
      match fetch(a[0])
      case None =>
      case Some(txs) =>
        var (e1, ok) := ApplyTransactions(e, txs);
        if ok {
          ApplyPagesAppend(e1, a[1..], b, fetch);
        }
    }
  }

  /** The request loop stopped at the last page of `starts`: every page before it succeeded, and it failed. */
  ghost predicate StoppedAtLast(e: Edges, starts: seq<int>, fetch: int -> Option<seq<Transaction>>)
  {
    starts != [] && ApplyPages(e, starts[..|starts| - 1], fetch).1 && !ApplyPages(e, starts, fetch).1
  }

  /**
   * One more page of the request loop: `e` is the graph after the pages
   * `done`, all successful, and the page at `x` takes `e` to `(e1, ok)`.
   * A failure there ends the loop, whatever pages `rest` would have followed.
   */
  lemma PagesStep(
    e0: Edges, done: seq<int>, x: int, rest: seq<int>, e: Edges, e1: Edges, ok: bool,
    fetch: int -> Option<seq<Transaction>>)
    requires ApplyPages(e0, done, fetch) == (e, true)
    requires (e1, ok) == ApplyPages(e, [x], fetch)
    ensures ApplyPages(e0, done + [x], fetch) == (e1, ok)
    ensures !ok ==> StoppedAtLast(e0, done + [x], fetch)
    ensures !ok ==> ApplyPages(e0, done + [x] + rest, fetch) == (e1, false)
  {
    ApplyPagesAppend(e0, done, [x], fetch);
    ApplyPagesAppend(e0, done + [x], rest, fetch);
    assert (done + [x])[..|done + [x]| - 1] == done;
  }
}
