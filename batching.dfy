/**
 * MergeTifTool.MergeTiffFromMemories: one greedy pass over the pages that
 * cuts them into numbered batches of at most 10 MiB of encoded size.
 * A page opens a new batch when the running total plus its own size would
 * pass the cap; the check never asks whether the current batch is empty.
 */
module Batching {

  const LIMITED_FILE_SIZE_MB := 10

  /** 10 * 1024 * 1024 bytes; reaching it exactly is still under the limit. */
  const LimitedLength := LIMITED_FILE_SIZE_MB * 1024 * 1024

  predicate IsOverload(byteLength: int)
  {
    LimitedLength < byteLength
  }

  /** The encoded size of a list of pages. */
  function Sum<P>(b: seq<P>, size: P -> nat): nat
  {
    if |b| == 0 then 0 else Sum(b[..|b| - 1], size) + size(b[|b| - 1])
  }

  lemma {:induction false} SumConcat<P>(a: seq<P>, b: seq<P>, size: P -> nat)
    ensures Sum(a + b, size) == Sum(a, size) + Sum(b, size)
    decreases |b|
  {
    if |b| == 0 {
      assert a + b == a;
    } else {
      assert (a + b)[..|a + b| - 1] == a + b[..|b| - 1];
      SumConcat(a, b[..|b| - 1], size);
    }
  }

  lemma SumSingle<P>(x: P, size: P -> nat)
    ensures Sum([x], size) == size(x)
  {
    assert [x][..0] == [];
  }

  /** The batches so far and the running size of the last one. */
  datatype Split<P> = Split(batches: seq<seq<P>>, total: int)

  /** The state of the loop once it has seen all of `memories`. */
  function Run<P>(memories: seq<P>, size: P -> nat): (r: Split<P>)
    ensures |r.batches| >= 1
  {
    RunTo(memories, |memories|, size)
  }

  /** The state of the loop after its first `n` iterations. */
  function RunTo<P>(memories: seq<P>, n: nat, size: P -> nat): (r: Split<P>)
    requires n <= |memories|
    ensures |r.batches| >= 1
  {
    if n == 0 then Split([[]], 0)
    else Step(RunTo(memories, n - 1, size), memories[n - 1], size)
  }

  /** One iteration: open batch k+1 with `x`, or add `x` to batch k. */
  function Step<P>(s: Split<P>, x: P, size: P -> nat): (r: Split<P>)
    requires |s.batches| >= 1
    ensures |r.batches| >= 1
  {
    if IsOverload(s.total + size(x)) then Split(s.batches + [[x]], size(x))
    else Split(s.batches[..|s.batches| - 1] + [s.batches[|s.batches| - 1] + [x]], s.total + size(x))
  }

  /** Step, index by index. */
  lemma StepShape<P>(s: Split<P>, x: P, size: P -> nat)
    requires |s.batches| >= 1
    ensures var b, t := s.batches, Step(s, x, size);
      if IsOverload(s.total + size(x)) then
        t.batches == b + [[x]] && t.total == size(x)
      else
        && |t.batches| == |b| && t.total == s.total + size(x)
        && (forall k :: 0 <= k < |b| - 1 ==> t.batches[k] == b[k])
        && t.batches[|b| - 1] == b[|b| - 1] + [x]
  {
  }

  /** The dictionary the method returns: batch k under key k. */
  function AsMap<P>(batches: seq<seq<P>>): (m: map<int, seq<P>>)
    ensures forall k :: k in m <==> 0 <= k < |batches|
    ensures forall k :: 0 <= k < |batches| ==> m[k] == batches[k]
  {
    map k | 0 <= k < |batches| :: batches[k]
  }

  /**
   * One iteration updates the dictionary at one key: a new key for a new
   * batch, or the key of the batch being filled; the total restarts or grows.
   */
  lemma AsMapStep<P>(s: Split<P>, x: P, size: P -> nat)
    requires |s.batches| >= 1
    ensures var b, m, t := s.batches, AsMap(s.batches), Step(s, x, size);
      if IsOverload(s.total + size(x)) then
        && AsMap(t.batches) == m[|b| := [x]] && |t.batches| == |b| + 1 && t.total == size(x)
      else
        && AsMap(t.batches) == m[|b| - 1 := m[|b| - 1] + [x]] && |t.batches| == |b| && t.total == s.total + size(x)
  {
    StepShape(s, x, size);
  }

  /** The loop of MergeTiffFromMemories; `size` is the length the page has when saved as a TIFF. */
  method MergeTiffFromMemories<P>(memories: seq<P>, size: P -> nat) returns (splitDic: map<int, seq<P>>)
    ensures splitDic == AsMap(Run(memories, size).batches)
  {
    var tempFileSize := 0;
    var splitIndex := 0;
    splitDic := map[splitIndex := []];
    ghost var st := RunTo(memories, 0, size);
    assert splitDic == AsMap(st.batches);
    var i := 0;
    while i < |memories|
      invariant 0 <= i <= |memories| && st == RunTo(memories, i, size)
      invariant splitIndex == |st.batches| - 1 && tempFileSize == st.total
      invariant splitDic == AsMap(st.batches)
    {
      var tempMemory := memories[i];
      var imgLength := size(tempMemory);
      AsMapStep(st, tempMemory, size);
      if IsOverload(tempFileSize + imgLength) {
        splitIndex := splitIndex + 1;
        splitDic := splitDic[splitIndex := [tempMemory]];
        tempFileSize := imgLength;
      } else {
        tempFileSize := tempFileSize + imgLength;
        splitDic := splitDic[splitIndex := splitDic[splitIndex] + [tempMemory]];
      }
      assert RunTo(memories, i + 1, size) == Step(st, tempMemory, size);
      st := Step(st, tempMemory, size);
      i := i + 1;
    }
  }

  // ----- what the batches are ------------------------------------------------

  function Flatten<P>(batches: seq<seq<P>>): seq<P>
  {
    if |batches| == 0 then [] else Flatten(batches[..|batches| - 1]) + batches[|batches| - 1]
  }

  lemma FlattenSnoc<P>(front: seq<seq<P>>, last: seq<P>)
    ensures Flatten(front + [last]) == Flatten(front) + last
  {
    assert (front + [last])[..|front|] == front;
  }

  /** One iteration adds exactly its page at the end of the concatenated batches. */
  lemma StepFlatten<P>(s: Split<P>, x: P, size: P -> nat)
    requires |s.batches| >= 1
    ensures Flatten(Step(s, x, size).batches) == Flatten(s.batches) + [x]
  {
    var b := s.batches;
    var front, last := b[..|b| - 1], b[|b| - 1];
    assert b == front + [last];
    FlattenSnoc(front, last);
    if IsOverload(s.total + size(x)) {
      FlattenSnoc(b, [x]);
    } else {
      FlattenSnoc(front, last + [x]);
    }
  }

  /** The loop starts with one empty batch, which holds no page. */
  lemma FlattenStart<P>()
    ensures Flatten<P>([[]]) == []
  {
    var e: seq<seq<P>> := [];
    FlattenSnoc(e, []);
    assert e + [[]] == [[]];
  }

  /** One more iteration appends page n-1 to what the first n-1 iterations gave back. */
  lemma PrefixSnoc<P>(memories: seq<P>, before: seq<P>, after: seq<P>, n: nat)
    requires 0 < n <= |memories|
    requires before == memories[..n - 1] && after == before + [memories[n - 1]]
    ensures after == memories[..n]
  {
    assert memories[..n] == memories[..n - 1] + [memories[n - 1]];
  }

  /** Concatenating the first batches in key order gives back the pages seen so far: nothing lost, repeated or moved. */
  lemma {:induction false} BatchesPartition<P>(memories: seq<P>, n: nat, size: P -> nat)
    requires n <= |memories|
    ensures Flatten(RunTo(memories, n, size).batches) == memories[..n]
    decreases n
  {
    if n == 0 {
      FlattenStart<P>();
    } else {
      var prev := RunTo(memories, n - 1, size);
      BatchesPartition(memories, n - 1, size);
      StepFlatten(prev, memories[n - 1], size);
      PrefixSnoc(memories, Flatten(prev.batches), Flatten(Step(prev, memories[n - 1], size).batches), n);
    }
  }

  /** The running total is the size of the batch being filled. */
  predicate TotalOk<P>(s: Split<P>, size: P -> nat)
    requires |s.batches| >= 1
  {
    s.total == Sum(s.batches[|s.batches| - 1], size)
  }

  lemma StepTotal<P>(s: Split<P>, x: P, size: P -> nat)
    requires |s.batches| >= 1 && TotalOk(s, size)
    ensures TotalOk(Step(s, x, size), size)
  {
    var b, t := s.batches, Step(s, x, size);
    StepShape(s, x, size);
    SumSingle(x, size);
    if !IsOverload(s.total + size(x)) {
      SumConcat(b[|b| - 1], [x], size);
      assert t.batches[|t.batches| - 1] == b[|b| - 1] + [x];
    }
  }

  /** The running total is always the size of the batch being filled. */
  lemma {:induction false} TotalIsLastBatch<P>(memories: seq<P>, n: nat, size: P -> nat)
    requires n <= |memories|
    ensures TotalOk(RunTo(memories, n, size), size)
    decreases n
  {
    if n > 0 {
      TotalIsLastBatch(memories, n - 1, size);
      StepTotal(RunTo(memories, n - 1, size), memories[n - 1], size);
    }
  }

  /** Later batches are never empty, and no batch passes the cap unless it is a single page. */
  predicate Bounded<P>(b: seq<seq<P>>, size: P -> nat)
  {
    && (forall k :: 1 <= k < |b| ==> |b[k]| > 0)
    && (forall k :: 0 <= k < |b| ==> Sum(b[k], size) <= LimitedLength || |b[k]| == 1)
  }

  lemma StepBounded<P>(s: Split<P>, x: P, size: P -> nat)
    requires |s.batches| >= 1 && TotalOk(s, size) && Bounded(s.batches, size)
    ensures Bounded(Step(s, x, size).batches, size)
  {
    var b := s.batches;
    StepShape(s, x, size);
    SumSingle(x, size);
    if !IsOverload(s.total + size(x)) {
      SumConcat(b[|b| - 1], [x], size);
    }
  }

  /** The shape of the result: later batches are never empty, and no batch passes the cap unless it is a single page. */
  lemma {:induction false} BatchesBounded<P>(memories: seq<P>, n: nat, size: P -> nat)
    requires n <= |memories|
    ensures Bounded(RunTo(memories, n, size).batches, size)
    decreases n
  {
    if n > 0 {
      BatchesBounded(memories, n - 1, size);
      TotalIsLastBatch(memories, n - 1, size);
      StepBounded(RunTo(memories, n - 1, size), memories[n - 1], size);
    }
  }

  /** Batch 0 is empty exactly when there is no page or the first page alone passes the cap. */
  lemma FirstBatchEmpty<P>(memories: seq<P>, size: P -> nat)
    ensures |Run(memories, size).batches[0]| == 0 <==> |memories| == 0 || IsOverload(size(memories[0]))
  {
    if |memories| > 0 {
      var first := RunTo(memories, 0, size);
      assert RunTo(memories, 1, size) == Step(first, memories[0], size);
      StepShape(first, memories[0], size);
      PrefixBatches(memories, 1, |memories|, size);
      NonEmptyStays(memories, 1, size);
    }
  }

  /** `b` continues `a`: it keeps a's closed batches, extends a's last batch and may add batches. */
  ghost predicate Extends<P>(a: seq<seq<P>>, b: seq<seq<P>>)
  {
    && 1 <= |a| <= |b|
    && (forall k :: 0 <= k < |a| - 1 ==> b[k] == a[k])
    && a[|a| - 1] <= b[|a| - 1]
  }

  lemma StepExtends<P>(a: seq<seq<P>>, s: Split<P>, x: P, size: P -> nat)
    requires |s.batches| >= 1 && Extends(a, s.batches)
    ensures Extends(a, Step(s, x, size).batches)
  {
    var b, c := s.batches, Step(s, x, size).batches;
    StepShape(s, x, size);
    if !IsOverload(s.total + size(x)) && |a| == |b| {
      assert a[|a| - 1] <= b[|b| - 1] <= c[|b| - 1];
    }
  }

  /** A longer run only appends to the last batch and adds batches: earlier batches are final. */
  lemma {:induction false} PrefixBatches<P>(memories: seq<P>, n: nat, m: nat, size: P -> nat)
    requires n <= m <= |memories|
    ensures Extends(RunTo(memories, n, size).batches, RunTo(memories, m, size).batches)
    decreases m - n
  {
    if n < m {
      PrefixBatches(memories, n, m - 1, size);
      StepExtends(RunTo(memories, n, size).batches, RunTo(memories, m - 1, size), memories[m - 1], size);
    }
  }

  /** Once batch 0 holds a page it keeps it. */
  lemma NonEmptyStays<P>(memories: seq<P>, n: nat, size: P -> nat)
    requires n <= |memories|
    ensures |RunTo(memories, n, size).batches[0]| > 0 ==> |Run(memories, size).batches[0]| > 0
  {
    PrefixBatches(memories, n, |memories|, size);
    var a, b := RunTo(memories, n, size).batches, Run(memories, size).batches;
    if |a| > 1 {
      assert b[0] == a[0];
    } else {
      assert a[0] <= b[0];
    }
  }

  /** Page n joins the current batch exactly when the running total plus its size stays within the cap. */
  lemma JoinsIff<P>(memories: seq<P>, n: nat, size: P -> nat)
    requires n < |memories|
    ensures var s, t, x := RunTo(memories, n, size), RunTo(memories, n + 1, size), memories[n];
      && (|t.batches| == |s.batches| <==> !IsOverload(s.total + size(x)))
      && (|t.batches| == |s.batches| ==> t.batches[|t.batches| - 1] == s.batches[|s.batches| - 1] + [x])
      && (|t.batches| != |s.batches| ==> t.batches == s.batches + [[x]])
  {
    StepShape(RunTo(memories, n, size), memories[n], size);
  }

  /** Batch k was closed because the first page of batch k+1 would have taken it past the cap. */
  predicate ClosedByNext<P>(b: seq<seq<P>>, k: int, size: P -> nat)
    requires 0 <= k < |b| - 1
  {
    |b[k + 1]| > 0 && IsOverload(Sum(b[k], size) + size(b[k + 1][0]))
  }

  predicate AllClosed<P>(b: seq<seq<P>>, size: P -> nat)
  {
    forall k :: 0 <= k < |b| - 1 ==> ClosedByNext(b, k, size)
  }

  lemma StepGreedy<P>(s: Split<P>, x: P, size: P -> nat)
    requires |s.batches| >= 1 && TotalOk(s, size) && AllClosed(s.batches, size)
    ensures AllClosed(Step(s, x, size).batches, size)
  {
    var b, r := s.batches, Step(s, x, size).batches;
    StepShape(s, x, size);
    if IsOverload(s.total + size(x)) {
      assert ClosedByNext(r, |b| - 1, size);
      forall k | 0 <= k < |r| - 1
        ensures ClosedByNext(r, k, size)
      {
        if k < |b| - 1 {
          assert ClosedByNext(b, k, size);
        }
      }
    } else {
      forall k | 0 <= k < |r| - 1
        ensures ClosedByNext(r, k, size)
      {
        assert ClosedByNext(b, k, size);
        if k + 1 == |b| - 1 {
          assert r[k + 1][0] == b[k + 1][0];
        }
      }
    }
  }

  /** Greedy: each batch is closed only because the first page of the next one would have passed the cap. */
  lemma {:induction false} Greedy<P>(memories: seq<P>, n: nat, size: P -> nat)
    requires n <= |memories|
    ensures AllClosed(RunTo(memories, n, size).batches, size)
    decreases n
  {
    if n > 0 {
      Greedy(memories, n - 1, size);
      TotalIsLastBatch(memories, n - 1, size);
      StepGreedy(RunTo(memories, n - 1, size), memories[n - 1], size);
    }
  }

  // ----- the empty first batch -------------------------------------------------

  /** As written: a first page over the cap leaves batch 0 empty and puts the page in batch 1. */
  lemma OversizedFirstPage<P>(x: P, size: P -> nat)
    requires IsOverload(size(x))
    ensures Run([x], size).batches == [[], [x]]
  {
    var e: seq<seq<P>> := [[]];
    assert RunTo([x], 1, size) == Step(RunTo([x], 0, size), x, size);
    assert e + [[x]] == [[], [x]];
  }

  /** The intended step: a new batch is opened only when the current one already holds a page. */
  function StepGuarded<P>(s: Split<P>, x: P, size: P -> nat): (r: Split<P>)
    requires |s.batches| >= 1
    ensures |r.batches| >= 1
  {
    var last := s.batches[|s.batches| - 1];
    if IsOverload(s.total + size(x)) && |last| > 0 then Split(s.batches + [[x]], size(x))
    else Split(s.batches[..|s.batches| - 1] + [last + [x]], s.total + size(x))
  }

  function RunGuarded<P>(memories: seq<P>, size: P -> nat): (r: Split<P>)
    ensures |r.batches| >= 1
  {
    RunGuardedTo(memories, |memories|, size)
  }

  function RunGuardedTo<P>(memories: seq<P>, n: nat, size: P -> nat): (r: Split<P>)
    requires n <= |memories|
    ensures |r.batches| >= 1
  {
    if n == 0 then Split([[]], 0)
    else StepGuarded(RunGuardedTo(memories, n - 1, size), memories[n - 1], size)
  }

  lemma StepGuardedShape<P>(s: Split<P>, x: P, size: P -> nat)
    requires |s.batches| >= 1
    ensures var b, t := s.batches, StepGuarded(s, x, size);
      if IsOverload(s.total + size(x)) && |b[|b| - 1]| > 0 then
        t.batches == b + [[x]] && t.total == size(x)
      else
        && |t.batches| == |b| && t.total == s.total + size(x)
        && (forall k :: 0 <= k < |b| - 1 ==> t.batches[k] == b[k])
        && t.batches[|b| - 1] == b[|b| - 1] + [x]
  {
  }

  lemma StepGuardedFlatten<P>(s: Split<P>, x: P, size: P -> nat)
    requires |s.batches| >= 1
    ensures Flatten(StepGuarded(s, x, size).batches) == Flatten(s.batches) + [x]
  {
    var b := s.batches;
    var front, last := b[..|b| - 1], b[|b| - 1];
    assert b == front + [last];
    FlattenSnoc(front, last);
    if IsOverload(s.total + size(x)) && |last| > 0 {
      FlattenSnoc(b, [x]);
    } else {
      FlattenSnoc(front, last + [x]);
    }
  }

  /** With the guard the batches still concatenate back to the pages seen so far. */
  lemma {:induction false} GuardedPartition<P>(memories: seq<P>, n: nat, size: P -> nat)
    requires n <= |memories|
    ensures Flatten(RunGuardedTo(memories, n, size).batches) == memories[..n]
    decreases n
  {
    if n == 0 {
      FlattenStart<P>();
    } else {
      var prev := RunGuardedTo(memories, n - 1, size);
      GuardedPartition(memories, n - 1, size);
      StepGuardedFlatten(prev, memories[n - 1], size);
      PrefixSnoc(memories, Flatten(prev.batches), Flatten(StepGuarded(prev, memories[n - 1], size).batches), n);
    }
  }

  lemma StepGuardedTotal<P>(s: Split<P>, x: P, size: P -> nat)
    requires |s.batches| >= 1 && TotalOk(s, size)
    ensures TotalOk(StepGuarded(s, x, size), size)
  {
    var b, t := s.batches, StepGuarded(s, x, size);
    StepGuardedShape(s, x, size);
    SumSingle(x, size);
    if !(IsOverload(s.total + size(x)) && |b[|b| - 1]| > 0) {
      SumConcat(b[|b| - 1], [x], size);
      assert t.batches[|t.batches| - 1] == b[|b| - 1] + [x];
    }
  }

  lemma {:induction false} GuardedTotal<P>(memories: seq<P>, n: nat, size: P -> nat)
    requires n <= |memories|
    ensures TotalOk(RunGuardedTo(memories, n, size), size)
    decreases n
  {
    if n > 0 {
      GuardedTotal(memories, n - 1, size);
      StepGuardedTotal(RunGuardedTo(memories, n - 1, size), memories[n - 1], size);
    }
  }

  /** No batch is empty, and only a single page passes the cap. */
  predicate GuardedOk<P>(b: seq<seq<P>>, size: P -> nat)
  {
    && (forall k :: 0 <= k < |b| ==> |b[k]| > 0)
    && (forall k :: 0 <= k < |b| ==> Sum(b[k], size) <= LimitedLength || |b[k]| == 1)
  }

  lemma StepGuardedOk<P>(s: Split<P>, x: P, size: P -> nat)
    requires |s.batches| >= 1 && TotalOk(s, size)
    requires GuardedOk(s.batches, size) || s.batches == [[]]
    ensures GuardedOk(StepGuarded(s, x, size).batches, size)
  {
    var b := s.batches;
    var last := b[|b| - 1];
    StepGuardedShape(s, x, size);
    SumSingle(x, size);
    if !(IsOverload(s.total + size(x)) && |last| > 0) {
      SumConcat(last, [x], size);
      if |last| == 0 {
        assert last + [x] == [x];
      }
    }
  }

  /**
   * With the guard no batch is empty once there is a page, and a batch
   * passes the cap only when it is a single page.
   */
  lemma {:induction false} GuardedBatches<P>(memories: seq<P>, n: nat, size: P -> nat)
    requires n <= |memories|
    ensures var b := RunGuardedTo(memories, n, size).batches;
      (n > 0 ==> GuardedOk(b, size)) && (n == 0 ==> b == [[]])
    decreases n
  {
    if n > 0 {
      GuardedBatches(memories, n - 1, size);
      GuardedTotal(memories, n - 1, size);
      StepGuardedOk(RunGuardedTo(memories, n - 1, size), memories[n - 1], size);
    }
  }
}
