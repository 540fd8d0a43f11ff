/**
  The batch scheduler of `main`: the chapter ids are cut into consecutive
  slices of `portion` ids; one task is launched per id of a slice, appended to
  a task list that is never cleared, and after each slice the whole
  accumulated list is awaited. Tasks are identified here by the chapter id
  they download, in launch order.
 */
module Scheduler {

  /** The batch size `main` uses. */
  const Portion := 10

  function Min(a: int, b: int): int {
    if a <= b then a else b
  }

  /** `ceil(n / d)` for a positive divisor. */
  function CeilDiv(n: nat, d: nat): nat
    requires d > 0
  {
    (n + d - 1) / d
  }

  /** Python's `s[from:to]` for non-negative bounds: indices past the end are clamped. */
  function Slice<T>(s: seq<T>, from: nat, to: nat): (r: seq<T>)
    requires from <= to
    ensures |r| == Min(to, |s|) - Min(from, |s|)
    ensures forall k :: 0 <= k < |r| ==> r[k] == s[from + k]
  {
    s[Min(from, |s|)..Min(to, |s|)]
  }

  /** Multiplication by a natural is monotone, and `p * (i + 1)` is one `p` past `p * i`. */
  lemma MulFacts(p: nat, a: nat, b: nat)
    requires a <= b
    ensures p * a <= p * b
    ensures p * (a + 1) == p * a + p
  {
  }

  /** `ceil(n / d)` is the least `c` with `d * c >= n`. */
  lemma CeilDivBounds(n: nat, d: nat)
    requires d > 0
    ensures d * CeilDiv(n, d) >= n
    ensures CeilDiv(n, d) > 0 ==> d * (CeilDiv(n, d) - 1) < n
  {
    var m := n + d - 1;
    var c := m / d;
    assert m == d * c + m % d;
    assert d * (c - 1) == d * c - d;
  }

  /** Batch `i` of `main`, `ids[portion*i : portion*(i+1)]`: non-empty, at most `portion` ids. */
  function Batch<T>(ids: seq<T>, portion: nat, i: nat): (b: seq<T>)
    requires portion > 0 && i < CeilDiv(|ids|, portion)
    ensures 0 < |b| <= portion
  {
    CeilDivBounds(|ids|, portion);
    MulFacts(portion, i, CeilDiv(|ids|, portion) - 1);
    Slice(ids, portion * i, portion * (i + 1))
  }

  /** The batches `main` walks through, in order: one per index below `ceil(L / portion)`. */
  function Batches<T>(ids: seq<T>, portion: nat): (bs: seq<seq<T>>)
    requires portion > 0
    ensures |bs| == 0 <==> |ids| == 0
    ensures forall i :: 0 <= i < |bs| ==> 0 < |bs[i]| <= portion
  {
    seq(CeilDiv(|ids|, portion), i requires 0 <= i < CeilDiv(|ids|, portion) => Batch(ids, portion, i))
  }

  /** The batches laid end to end. */
  function Flatten<T>(bs: seq<seq<T>>): seq<T>
    decreases |bs|
  {
    if |bs| == 0 then [] else Flatten(bs[..|bs| - 1]) + bs[|bs| - 1]
  }

  /** The task list awaited by `asyncio.gather` after batch `i` has been launched. */
  function AwaitedAfter<T>(ids: seq<T>, portion: nat, i: nat): (tasks: seq<T>)
    requires portion > 0 && i < CeilDiv(|ids|, portion)
    ensures tasks == ids[..Min(portion * (i + 1), |ids|)]
  {
    FlattenPrefix(ids, portion, i + 1);
    Flatten(Batches(ids, portion)[..i + 1])
  }

  /**
    The batch count is the least `c` with `portion * c >= |ids|`: `ceil(L / portion)`.
    In particular there are no batches exactly when there are no ids.
   */
  lemma BatchCount<T>(ids: seq<T>, portion: nat)
    requires portion > 0
    ensures var c := |Batches(ids, portion)|;
      && portion * c >= |ids|
      && (c > 0 ==> portion * (c - 1) < |ids|)
      && (c == 0 <==> |ids| == 0)
  {
    CeilDivBounds(|ids|, portion);
  }

  /** Every batch but the last is full; the last holds the remaining 1 to `portion` ids. */
  lemma BatchSizes<T>(ids: seq<T>, portion: nat)
    requires portion > 0
    ensures var bs := Batches(ids, portion);
      && (forall i :: 0 <= i < |bs| - 1 ==> |bs[i]| == portion)
      && (|bs| > 0 ==> 1 <= |bs[|bs| - 1]| <= portion
                       && |bs[|bs| - 1]| == |ids| - portion * (|bs| - 1))
  {
    var bs := Batches(ids, portion);
    var c := |bs|;
    BatchCount(ids, portion);
    forall i | 0 <= i < c - 1 ensures |bs[i]| == portion {
      MulFacts(portion, i + 1, c - 1);
      MulFacts(portion, i, i + 1);
    }
    if c > 0 {
      MulFacts(portion, c - 1, c);
    }
  }

  /** The first `i` batches laid end to end are the first `portion * i` ids (clamped). */
  lemma {:induction false} FlattenPrefix<T>(ids: seq<T>, portion: nat, i: nat)
    requires portion > 0 && i <= CeilDiv(|ids|, portion)
    ensures Flatten(Batches(ids, portion)[..i]) == ids[..Min(portion * i, |ids|)]
  {
    var bs := Batches(ids, portion);
    if i == 0 {
      assert bs[..0] == [];
    } else {
      FlattenPrefix(ids, portion, i - 1);
      assert bs[..i][..i - 1] == bs[..i - 1];
      MulFacts(portion, i - 1, i);
      var lo := Min(portion * (i - 1), |ids|);
      var hi := Min(portion * i, |ids|);
      assert bs[..i][i - 1] == bs[i - 1] == ids[lo..hi];
      assert ids[..hi] == ids[..lo] + ids[lo..hi];
    }
  }

  /** Laying the batches end to end gives back the id list: nothing lost, repeated or reordered. */
  lemma FlattenBatches<T>(ids: seq<T>, portion: nat)
    requires portion > 0
    ensures Flatten(Batches(ids, portion)) == ids
  {
    var bs := Batches(ids, portion);
    BatchCount(ids, portion);
    FlattenPrefix(ids, portion, |bs|);
    assert bs[..|bs|] == bs;
  }

  /** Tasks accumulate: what is awaited after batch `i` is awaited again after every later batch. */
  lemma AwaitedGrows<T>(ids: seq<T>, portion: nat, i: nat, j: nat)
    requires portion > 0 && i <= j < CeilDiv(|ids|, portion)
    ensures AwaitedAfter(ids, portion, i) <= AwaitedAfter(ids, portion, j)
    ensures |AwaitedAfter(ids, portion, i)| <= |AwaitedAfter(ids, portion, j)|
  {
    MulFacts(portion, i + 1, j + 1);
  }

  /** The last `gather` waits on a task for every id. */
  lemma LastAwaitCoversAll<T>(ids: seq<T>, portion: nat)
    requires portion > 0 && |ids| > 0
    ensures AwaitedAfter(ids, portion, CeilDiv(|ids|, portion) - 1) == ids
  {
    BatchCount(ids, portion);
    assert ids[..|ids|] == ids;
  }

  /** The loop of `main`: the batches it launches and the task list awaited after each. */
  method RunMain<T>(ids: seq<T>) returns (launched: seq<seq<T>>, awaited: seq<seq<T>>)
    ensures launched == Batches(ids, Portion)
    ensures |awaited| == |launched|
    ensures forall i :: 0 <= i < |awaited| ==> awaited[i] == ids[..Min(Portion * (i + 1), |ids|)]
  {
    var tasks: seq<T> := [];
    var portionCount := CeilDiv(|ids|, Portion);
    launched, awaited := [], [];
    var i := 0;
    while i < portionCount
      invariant 0 <= i <= portionCount
      invariant launched == Batches(ids, Portion)[..i]
      invariant |awaited| == i
      invariant forall j :: 0 <= j < i ==> awaited[j] == ids[..Min(Portion * (j + 1), |ids|)]
      invariant tasks == ids[..Min(Portion * i, |ids|)]
    {
      var fromIndex := Portion * i;
      var toIndex := Portion * (i + 1);
      var batch := Slice(ids, fromIndex, toIndex);
      assert ids[..Min(toIndex, |ids|)] == tasks + batch;
      tasks := tasks + batch;
      launched := launched + [batch];
      awaited := awaited + [tasks];
      i := i + 1;
    }
  }

  /** 23 chapter ids in batches of 10 give batches of 10, 10 and 3 ids. */
  lemma ExampleTwentyThree(ids: seq<int>)
    requires |ids| == 23
    ensures var bs := Batches(ids, Portion);
      |bs| == 3 && |bs[0]| == 10 && |bs[1]| == 10 && |bs[2]| == 3
  {
  }
}
