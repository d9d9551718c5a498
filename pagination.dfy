/** The offsets at which the block's transactions are requested, one page of 25 at a time. */
module Pagination {

  const PageSize: nat := 25

  /**
   * The page starts `start`, `start + 25`, ... that lie below `txCount`: each
   * is below it, and the next one would not be.
   */
  function PageStartsFrom(start: int, txCount: int): (r: seq<int>)
    ensures forall i :: 0 <= i < |r| ==> r[i] == start + PageSize * i && r[i] < txCount
    ensures start + PageSize * |r| >= txCount
    decreases txCount - start
  {
    if start < txCount then [start] + PageStartsFrom(start + PageSize, txCount) else []
  }

  /** The starts the request loop runs through: 0, 25, 50, ... while below `txCount`. */
  function PageStarts(txCount: int): (r: seq<int>)
    ensures forall i :: 0 <= i < |r| ==> r[i] == PageSize * i && r[i] < txCount
    ensures PageSize * |r| >= txCount
  {
    PageStartsFrom(0, txCount)
  }

  lemma {:induction false} PageStartsFromShape(j: nat, txCount: int)
    ensures var s := PageStartsFrom(25 * j, txCount);
            && |s| == (if txCount <= 25 * j then 0 else (txCount - 25 * j + 24) / 25)
            && forall i :: 0 <= i < |s| ==> s[i] == 25 * (j + i)
    decreases txCount - 25 * j
  {
    if 25 * j < txCount {
      PageStartsFromShape(j + 1, txCount);
      assert 25 * j + PageSize == 25 * (j + 1);
    }
  }

  /**
   * ceil(txCount / 25) requests, at 0, 25, 50, ..., each below txCount; the
   * pages [start, start + 25) do not overlap and together cover [0, txCount).
   */
  lemma PageStartsCover(txCount: int)
    ensures var s := PageStarts(txCount);
            && |s| == (if txCount <= 0 then 0 else (txCount + 24) / 25)
            && (forall i :: 0 <= i < |s| ==> s[i] == 25 * i && s[i] < txCount)
            && (forall i, j :: 0 <= i < j < |s| ==> s[i] + PageSize <= s[j])
            && (forall k :: 0 <= k < txCount ==> k / 25 < |s| && s[k / 25] <= k < s[k / 25] + PageSize)
  {
    PageStartsFromShape(0, txCount);
  }

  /** The request loop's bookkeeping: the starts requested so far, followed by those still to come, are all starts. */
  lemma PageStartsStep(requested: seq<int>, start: int, txCount: int)
    requires PageStarts(txCount) == requested + PageStartsFrom(start, txCount)
    ensures start < txCount ==>
      PageStarts(txCount) == (requested + [start]) + PageStartsFrom(start + PageSize, txCount)
    ensures start >= txCount ==> PageStarts(txCount) == requested
  {
    if start < txCount {
      assert requested + PageStartsFrom(start, txCount)
          == (requested + [start]) + PageStartsFrom(start + PageSize, txCount);
    } else {
      assert requested + PageStartsFrom(start, txCount) == requested;
    }
  }
}
