/**
 `move_files_batch` (move_items.py): the ids are cut into consecutive slices of at
 most `batch_size` and `move_files` is called once per slice, in order. The remote
 call is the parameter `move`.
 */
module BatchMove {
  import opened Base
  import opened Remote

  /** The `file_ids` argument: a list (or tuple) of ids, or one bare id. */
  datatype FileIds = One(id: int) | Many(ids: seq<int>)

  /** `if not isinstance(file_ids, (list, tuple)): file_ids = [file_ids]`. */
  function AsList(f: FileIds): (ids: seq<int>)
    ensures f.One? ==> ids == [f.id]
    ensures f.Many? ==> ids == f.ids
  {
    match f
    case One(id) => [id]
    case Many(ids) => ids
  }

  /** How the function ends without a result: `range(0, total, 0)` raises ValueError;
      when the loop body never ran, `total_batches` is unbound at the final print. */
  datatype BatchError = ZeroBatchSize | TotalBatchesUnbound

  function Flatten(bs: seq<seq<int>>): seq<int> {
    if bs == [] then [] else bs[0] + Flatten(bs[1..])
  }

  function Min(a: int, b: int): int {
    if a <= b then a else b
  }

  /** `k * size`, counted up one slice at a time. */
  function Offset(size: nat, k: nat): nat {
    if k == 0 then 0 else Offset(size, k - 1) + size
  }

  /** `[file_ids[i:i+size] for i in range(0, len(file_ids), size)]`, cut one slice at
      a time from the front; `BatchesShape` and `BatchAt` say what comes out. */
  function Batches(ids: seq<int>, size: nat): (bs: seq<seq<int>>)
    requires size >= 1
    ensures |bs| == 0 <==> |ids| == 0
    decreases |ids|
  {
    if |ids| == 0 then []
    else if |ids| <= size then [ids]
    else [ids[..size]] + Batches(ids[size..], size)
  }

  /** Every slice is non-empty and at most `size` long, all but the last are full, and
      together they are the input; their number `n` is ceil(total / size), that is the
      one with (n - 1) * size < total <= n * size, multiples being written with
      `Offset`. */
  lemma {:induction false} BatchesShape(ids: seq<int>, size: nat)
    requires size >= 1
    ensures var bs := Batches(ids, size);
            && Flatten(bs) == ids
            && (|bs| > 0 ==> Offset(size, |bs| - 1) < |ids| <= Offset(size, |bs|))
            && (forall k :: 0 <= k < |bs| ==> 1 <= |bs[k]| <= size)
            && (forall k :: 0 <= k < |bs| - 1 ==> |bs[k]| == size)
    decreases |ids|
  {
    var bs := Batches(ids, size);
    if |ids| == 0 {
    } else if |ids| <= size {
      assert Flatten([ids]) == ids + Flatten([]);
    } else {
      var rest := Batches(ids[size..], size);
      BatchesShape(ids[size..], size);
      assert bs == [ids[..size]] + rest;
      assert bs[1..] == rest;
      assert ids == ids[..size] + ids[size..];
      assert forall k :: 1 <= k < |bs| ==> bs[k] == rest[k - 1];
    }
  }

  /** The number of slices is `(total + size - 1) // size`, the `total_batches` the
      function prints. */
  lemma BatchCount(ids: seq<int>, size: nat)
    requires size >= 1
    ensures |Batches(ids, size)| == (|ids| + size - 1) / size
  {
    BatchesShape(ids, size);
    var n := |Batches(ids, size)|;
    var x := |ids| + size - 1;
    if n == 0 {
      DivUnique(x, size, 0, x);
    } else {
      OffsetIsProduct(size, n);
      OffsetIsProduct(size, n - 1);
      assert (n - 1) * size == n * size - size;
      DivUnique(x, size, n, x - n * size);
    }
  }

  lemma DivUnique(x: int, d: int, q: int, r: int)
    requires d >= 1 && 0 <= r < d && x == q * d + r
    ensures x / d == q
  {
    var q', r' := x / d, x % d;
    assert x == q' * d + r' && 0 <= r' < d;
    assert (q - q') * d == r' - r by {
      assert (q - q') * d == q * d - q' * d;
    }
    if q - q' >= 1 {
      MulAtLeast(q - q', d);
    } else if q' - q >= 1 {
      MulAtLeast(q' - q, d);
    }
  }

  lemma MulAtLeast(a: int, d: int)
    requires a >= 1 && d >= 1
    ensures a * d >= d
  {
  }

  /** Slice `k` is `ids[k * size : k * size + size]`, cut at the end of the list. */
  lemma BatchAt(ids: seq<int>, size: nat, k: nat)
    requires size >= 1
    requires k < |Batches(ids, size)|
    ensures k * size < |ids|
    ensures Batches(ids, size)[k] == ids[k * size..Min(k * size + size, |ids|)]
  {
    BatchAtOffset(ids, size, k);
    OffsetIsProduct(size, k);
  }

  lemma {:induction false} OffsetIsProduct(size: nat, k: nat)
    ensures Offset(size, k) == k * size
  {
    if k > 0 {
      OffsetIsProduct(size, k - 1);
      assert (k - 1) * size + size == k * size;
    }
  }

  lemma {:induction false} BatchAtOffset(ids: seq<int>, size: nat, k: nat)
    requires size >= 1
    requires k < |Batches(ids, size)|
    ensures Offset(size, k) < |ids|
    ensures Batches(ids, size)[k] == ids[Offset(size, k)..Min(Offset(size, k) + size, |ids|)]
    decreases k
  {
    if k == 0 {
      FirstBatch(ids, size);
    } else {
      LaterBatch(ids, size, k);
      BatchAtOffset(ids[size..], size, k - 1);
      ShiftSlice(ids, size, Offset(size, k - 1), k);
    }
  }

  /** A slice of `ids[size:]` is the slice of `ids` one batch further on. */
  lemma ShiftSlice(ids: seq<int>, size: nat, j: nat, k: nat)
    requires size >= 1 && k > 0
    requires |ids| > size
    requires j == Offset(size, k - 1)
    requires j < |ids[size..]|
    ensures Offset(size, k) == j + size
    ensures var hi := Min(j + size, |ids| - size);
            Min(j + size + size, |ids|) == hi + size && ids[size..][j..hi] == ids[j + size..hi + size]
  {
  }

  lemma FirstBatch(ids: seq<int>, size: nat)
    requires size >= 1
    requires 0 < |Batches(ids, size)|
    ensures Batches(ids, size)[0] == ids[0..Min(size, |ids|)]
  {
  }

  lemma LaterBatch(ids: seq<int>, size: nat, k: nat)
    requires size >= 1 && k > 0
    requires k < |Batches(ids, size)|
    ensures |ids| > size
    ensures k - 1 < |Batches(ids[size..], size)| && Batches(ids, size)[k] == Batches(ids[size..], size)[k - 1]
  {
  }

  /** What the move function is asked for the `index`-th slice: move `ids` under `target`.
      Its answer may differ from one call to the next, even for equal slices. */
  datatype BatchRequest = BatchRequest(index: nat, ids: seq<int>, target: int)

  /** The replies of the loop: slice `k` goes out as the `k`-th request. */
  function MoveSlices(bs: seq<seq<int>>, target: int, move: BatchRequest -> MoveReply): (rs: seq<MoveReply>)
    ensures |rs| == |bs|
    ensures forall k :: 0 <= k < |bs| ==> rs[k] == move(BatchRequest(k, bs[k], target))
  {
    seq(|bs|, k requires 0 <= k < |bs| => move(BatchRequest(k, bs[k], target)))
  }

  /** `move_files_batch(file_ids, target_pid, batch_size)` as written: one reply per
      slice, in order, or the exception the function ends with. */
  function MoveFilesBatch(fileIds: FileIds, target: int, batchSize: int, move: BatchRequest -> MoveReply)
    : (r: Result<seq<MoveReply>, BatchError>)
    ensures r == Failure(ZeroBatchSize) <==> batchSize == 0
    ensures r == Failure(TotalBatchesUnbound) <==> batchSize < 0 || (batchSize > 0 && |AsList(fileIds)| == 0)
    ensures r.Success? ==> batchSize > 0
    ensures r.Success? ==>
              var bs := Batches(AsList(fileIds), batchSize);
              && |r.value| == |bs| >= 1
              && forall k :: 0 <= k < |bs| ==> r.value[k] == move(BatchRequest(k, bs[k], target))
  {
    var ids := AsList(fileIds);
    if batchSize == 0 then Failure(ZeroBatchSize)
    else if batchSize < 0 || |ids| == 0 then Failure(TotalBatchesUnbound)
    else Success(MoveSlices(Batches(ids, batchSize), target, move))
  }

  /** The same function with the final report guarded, as evidently intended: when the
      loop never runs (an empty id list, or a negative `batch_size` for which `range`
      is empty) no call is made, zero batches are reported and the result is `[]`. */
  function MoveFilesBatchCorrected(fileIds: FileIds, target: int, batchSize: int, move: BatchRequest -> MoveReply)
    : (r: Result<seq<MoveReply>, BatchError>)
    ensures r.Success? <==> batchSize != 0
    ensures r.Failure? ==> r.error == ZeroBatchSize
    ensures batchSize < 0 ==> r == Success([])
    ensures batchSize > 0 ==>
              var bs := Batches(AsList(fileIds), batchSize);
              && r.Success? && |r.value| == |bs|
              && forall k :: 0 <= k < |bs| ==> r.value[k] == move(BatchRequest(k, bs[k], target))
  {
    var ids := AsList(fileIds);
    if batchSize == 0 then Failure(ZeroBatchSize)
    else if batchSize < 0 then Success([])
    else Success(MoveSlices(Batches(ids, batchSize), target, move))
  }

  /** As written, an empty list raises instead of reporting zero batches, and so does
      any negative batch size; the corrected function returns `[]` in both cases. */
  lemma EmptyListRaises(target: int, batchSize: int, move: BatchRequest -> MoveReply)
    requires batchSize > 0
    ensures MoveFilesBatch(Many([]), target, batchSize, move) == Failure(TotalBatchesUnbound)
    ensures MoveFilesBatchCorrected(Many([]), target, batchSize, move) == Success([])
  {
  }

  lemma NegativeSizeRaises(fileIds: FileIds, target: int, batchSize: int, move: BatchRequest -> MoveReply)
    requires batchSize < 0
    ensures MoveFilesBatch(fileIds, target, batchSize, move) == Failure(TotalBatchesUnbound)
    ensures MoveFilesBatchCorrected(fileIds, target, batchSize, move) == Success([])
  {
  }

  /** Wherever the loop runs at least once, the correction changes nothing. */
  lemma CorrectedAgreesOnNonEmpty(fileIds: FileIds, target: int, batchSize: int, move: BatchRequest -> MoveReply)
    requires |AsList(fileIds)| > 0 && batchSize >= 0
    ensures MoveFilesBatchCorrected(fileIds, target, batchSize, move) == MoveFilesBatch(fileIds, target, batchSize, move)
  {
  }

  /** Two equal slices are still two separate calls: the model does not force them to
      get the same reply. */
  lemma RepeatedSliceIsSeparateCall(target: int, move: BatchRequest -> MoveReply)
    requires move(BatchRequest(0, [7], target)).Moved? && move(BatchRequest(1, [7], target)).NotMoved?
    ensures var r := MoveFilesBatch(Many([7, 7]), target, 1, move);
            r.Success? && r.value[0] != r.value[1]
  {
    var ids := [7, 7];
    var bs := Batches(ids, 1);
    BatchCount(ids, 1);
    assert |bs| == 2;
    BatchAt(ids, 1, 0);
    BatchAt(ids, 1, 1);
    assert bs[0] == ids[0..1] == [7];
    assert bs[1] == ids[1..2] == [7];
  }
}
