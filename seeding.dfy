/**
 * Seeding the graph with one node per transaction id. A Python dict keeps the
 * position a key was first inserted at, so a repeated id adds no second node
 * and does not move the first one.
 */
module Seeding {
  import opened Types

  /**
   * The ids in the order of their first occurrence in `s`: never longer than
   * `s`, the first id stays first, and the latest id is always present.
   */
  function Dedup(s: seq<TxId>): (r: seq<TxId>)
    ensures |r| <= |s|
    ensures s != [] ==> r != [] && r[0] == s[0] && s[|s| - 1] in r
  {
    if s == [] then []
    else
      var d := Dedup(s[..|s| - 1]);
      if s[|s| - 1] in d then d else d + [s[|s| - 1]]
  }

  /** The node order holds each given id exactly once, and nothing else. */
  lemma {:induction false} DedupKeepsEachIdOnce(s: seq<TxId>)
    ensures Distinct(Dedup(s))
    ensures forall x :: x in Dedup(s) <==> x in s
  {
    if s != [] {
      var init := s[..|s| - 1];
      DedupKeepsEachIdOnce(init);
      assert s == init + [s[|s| - 1]];
    }
  }

  /** When the block lists no id twice, the node order is exactly the given list. */
  lemma {:induction false} DedupOfDistinct(s: seq<TxId>)
    requires Distinct(s)
    ensures Dedup(s) == s
  {
    if s != [] {
      var init := s[..|s| - 1];
      assert Distinct(init);
      DedupOfDistinct(init);
      assert s[|s| - 1] !in init;
      assert s == init + [s[|s| - 1]];
    }
  }

  /**
   * Seeding one more id: an id already present adds no node and keeps its
   * first position; a new id is appended.
   */
  lemma DedupSnoc(s: seq<TxId>, x: TxId)
    ensures Dedup(s + [x]) == if x in s then Dedup(s) else Dedup(s) + [x]
  {
    assert (s + [x])[..|s + [x]| - 1] == s;
    DedupKeepsEachIdOnce(s);
  }

  /** The first `i + 1` ids are the first `i` followed by the next one. */
  lemma TakeNext(s: seq<TxId>, i: nat)
    requires i < |s|
    ensures s[..i + 1] == s[..i] + [s[i]]
  {
  }
}
