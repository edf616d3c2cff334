/** The batch of three shapes offered to the player (`update_shapes_batch`,
    `get_new_shapes_batch`). The shape catalog is a parameter and the random draw is a
    nondeterministic choice of distinct catalog positions. */
module ShapesBatch {
  import opened Errors
  import opened Board

  type Shape = seq<bool>
  type Batch = seq<Option<Shape>>

  /** The catalog the game draws from: at least a batch of shapes, each a 5x5 mask. */
  predicate ValidCatalog(catalog: seq<Shape>) {
    |catalog| >= ShapesBatchSize && forall i :: 0 <= i < |catalog| ==> |catalog[i]| == ShapeSize
  }

  /** Catalog positions without repeats. */
  predicate IsSelection(catalog: seq<Shape>, idx: seq<nat>) {
    (forall k :: 0 <= k < |idx| ==> idx[k] < |catalog|)
    && (forall j, k :: 0 <= j < k < |idx| ==> idx[j] != idx[k])
  }

  function BatchOf(catalog: seq<Shape>, idx: seq<nat>): (batch: Batch)
    requires forall k :: 0 <= k < |idx| ==> idx[k] < |catalog|
    ensures |batch| == |idx|
  {
    seq(|idx|, k requires 0 <= k < |idx| => Some(catalog[idx[k]]))
  }

  /** A batch `choose_multiple` can return: as many shapes as the batch holds (fewer only if the
      catalog is smaller), taken from distinct catalog positions, each wrapped in Some. */
  ghost predicate IsFreshBatch(catalog: seq<Shape>, batch: Batch) {
    |batch| == (if |catalog| < ShapesBatchSize then |catalog| else ShapesBatchSize)
    && exists idx :: IsSelection(catalog, idx) && batch == BatchOf(catalog, idx)
  }

  /** Every slot has been played. */
  predicate AllUsed(batch: Batch) {
    forall k :: 0 <= k < |batch| ==> batch[k].None?
  }

  /** The relation `update_shapes_batch` establishes: the played slot becomes None, and once no
      slot is left the whole batch is redrawn. */
  ghost predicate IsBatchUpdate(catalog: seq<Shape>, batch: Batch, shapeIx: nat, updated: Batch)
    requires shapeIx < |batch|
  {
    var cleared := batch[shapeIx := None];
    if AllUsed(cleared) then IsFreshBatch(catalog, updated) else updated == cleared
  }

  /** A selection of at most two positions, shorter than the catalog, leaves one of the first
      three positions unused. */
  lemma UnusedPosition(catalog: seq<Shape>, idx: seq<nat>) returns (i: nat)
    requires IsSelection(catalog, idx) && |idx| < |catalog| && |idx| < ShapesBatchSize
    ensures i < |catalog| && i !in idx
  {
    if 0 !in idx {
      i := 0;
    } else if 1 !in idx {
      i := 1;
    } else {
      i := 2;
      assert |idx| == 2 && idx[0] != idx[1];
    }
  }

  /** `get_new_shapes_batch`: draws distinct catalog positions one at a time. */
  method GetNewShapesBatch(catalog: seq<Shape>) returns (batch: Batch)
    ensures IsFreshBatch(catalog, batch)
  {
    var amount := if |catalog| < ShapesBatchSize then |catalog| else ShapesBatchSize;
    var idx: seq<nat> := [];
    while |idx| < amount
      invariant |idx| <= amount && IsSelection(catalog, idx)
    {
      ghost var unused := UnusedPosition(catalog, idx);
      var i :| 0 <= i < |catalog| && i !in idx;
      idx := idx + [i];
    }
    batch := BatchOf(catalog, idx);
  }

  /** `update_shapes_batch`. */
  method UpdateShapesBatch(batch: Batch, shapeIx: nat, catalog: seq<Shape>) returns (updated: Batch)
    requires shapeIx < |batch|
    ensures IsBatchUpdate(catalog, batch, shapeIx, updated)
  {
    updated := batch[shapeIx := None];
    if forall k :: 0 <= k < |updated| ==> updated[k].None? {
      updated := GetNewShapesBatch(catalog);
    }
  }

  /** Every offered shape is a 5x5 mask. */
  predicate MasksValid(batch: Batch) {
    forall k :: 0 <= k < |batch| && batch[k].Some? ==> |batch[k].value| == ShapeSize
  }

  /** A fresh batch drawn from a valid catalog fills all three slots with catalog masks. */
  lemma FreshBatchFull(catalog: seq<Shape>, batch: Batch)
    requires ValidCatalog(catalog) && IsFreshBatch(catalog, batch)
    ensures |batch| == ShapesBatchSize && MasksValid(batch)
    ensures forall k :: 0 <= k < |batch| ==> batch[k].Some? && batch[k].value in catalog
  {
    var idx :| IsSelection(catalog, idx) && batch == BatchOf(catalog, idx);
    forall k | 0 <= k < |batch|
      ensures batch[k].Some? && batch[k].value in catalog
    {
      assert batch[k] == Some(catalog[idx[k]]);
    }
  }

  /** Over a batch of three from a valid catalog: the size stays three and masks stay 5x5; the
      played slot is Some afterwards exactly when it was the last slot left, in which case every
      slot holds a catalog mask; otherwise every other slot is unchanged. */
  lemma BatchUpdateFacts(catalog: seq<Shape>, batch: Batch, shapeIx: nat, updated: Batch)
    requires ValidCatalog(catalog) && |batch| == ShapesBatchSize && MasksValid(batch)
    requires shapeIx < |batch| && IsBatchUpdate(catalog, batch, shapeIx, updated)
    ensures |updated| == ShapesBatchSize && MasksValid(updated)
    ensures updated[shapeIx].Some? <==> AllUsed(batch[shapeIx := None])
    ensures AllUsed(batch[shapeIx := None]) ==>
      forall k :: 0 <= k < |updated| ==> updated[k].Some? && updated[k].value in catalog
    ensures !AllUsed(batch[shapeIx := None]) ==>
      updated[shapeIx] == None && forall k :: 0 <= k < |batch| && k != shapeIx ==> updated[k] == batch[k]
  {
    if AllUsed(batch[shapeIx := None]) {
      FreshBatchFull(catalog, updated);
    }
  }
}
