/** Values shared by every part of the ancestry model. */
module Types {

  /** A transaction id; the block explorer hands them out as hex strings. */
  type TxId = string

  /** The `parents` sets of the graph, keyed by node id. */
  type Edges = map<TxId, set<TxId>>

  /** One transaction as the block explorer returns it: its id and the ids its inputs spend. */
  datatype Transaction = Transaction(txid: TxId, vin: seq<TxId>)

  datatype Option<T> = None | Some(value: T)

  /** Every parent named in the graph is itself a node of the graph. */
  predicate Closed(e: Edges)
  {
    forall t, p :: t in e && p in e[t] ==> p in e
  }

  predicate Distinct<T(==)>(s: seq<T>)
  {
    forall i, j :: 0 <= i < j < |s| ==> s[i] != s[j]
  }
}
