/**
 `atomic_cell_or_collection`: what a row stores for one column. It holds no
 data, one encoded atomic cell, or the opaque mutation blob of a collection
 column, which it copies and compares byte for byte but never interprets.
 Whether the stored bytes are read as a cell or as a blob is decided by the
 column type, of which only its capability flags are modelled.
 */
module CellOrCollection {
  import opened Bytes
  import opened AtomicCells
  import MergeLaws

  /** The capabilities of a column type the core asks about; only `isAtomic` drives equality. */
  datatype ColumnType = ColumnType(isAtomic: bool, isMultiCell: bool, isCounter: bool)

  datatype AtomicCellOrCollection =
    | Empty
    | Scalar(cell: Cell)
    | Collection(blob: seq<uint8>)

  /** `_data.empty()`: nothing is stored. A collection blob of no bytes stores nothing either. */
  predicate HasNoData(w: AtomicCellOrCollection)
  {
    w.Empty? || (w.Collection? && w.blob == [])
  }

  /** The stored bytes were written for this column type: a cell for an atomic type, a blob otherwise. */
  predicate FitsType(t: ColumnType, w: AtomicCellOrCollection)
  {
    HasNoData(w) || (w.Scalar? <==> t.isAtomic)
  }

  /** The view constructor: wraps (a copy of the bytes of) one cell view. */
  function FromCellView(view: Cell): (r: AtomicCellOrCollection)
    ensures !HasNoData(r) && r.Scalar? && r.cell == view
    ensures forall t: ColumnType :: t.isAtomic ==> FitsType(t, r)
  {
    Scalar(view)
  }

  /** `copy`: nothing copies to the empty wrapper; otherwise the same bytes in new storage. */
  function Copy(w: AtomicCellOrCollection): (r: AtomicCellOrCollection)
    ensures HasNoData(w) ==> r == Empty
    ensures !HasNoData(w) ==> r == w
  {
    if HasNoData(w) then Empty else w
  }

  /** `equals`: the empty case first, then the column type picks cell or blob equality. */
  predicate Equals(t: ColumnType, a: AtomicCellOrCollection, b: AtomicCellOrCollection)
    requires FitsType(t, a) && FitsType(t, b)
  {
    if HasNoData(a) || HasNoData(b) then HasNoData(a) && HasNoData(b)
    else if t.isAtomic then CellEquals(a.cell, b.cell)
    else a.blob == b.blob
  }

  /** Empty equals empty, and never anything that holds data, in either order. */
  lemma EqualsEmpty(t: ColumnType, a: AtomicCellOrCollection, b: AtomicCellOrCollection)
    requires FitsType(t, a) && FitsType(t, b)
    requires HasNoData(a)
    ensures Equals(t, a, b) <==> HasNoData(b)
    ensures Equals(t, b, a) <==> HasNoData(b)
  {
  }

  /** For an atomic column, two non-empty wrappers are equal exactly when they hold the same cell. */
  lemma EqualsAtomic(t: ColumnType, a: AtomicCellOrCollection, b: AtomicCellOrCollection)
    requires t.isAtomic && FitsType(t, a) && FitsType(t, b)
    requires !HasNoData(a) && !HasNoData(b)
    ensures a.Scalar? && b.Scalar?
    ensures Equals(t, a, b) <==> a.cell == b.cell
  {
    CellEqualsIsIdentity(a.cell, b.cell);
  }

  /** For any other column, two non-empty wrappers are equal exactly when their blobs are the same bytes. */
  lemma EqualsCollection(t: ColumnType, a: AtomicCellOrCollection, b: AtomicCellOrCollection)
    requires !t.isAtomic && FitsType(t, a) && FitsType(t, b)
    requires !HasNoData(a) && !HasNoData(b)
    ensures a.Collection? && b.Collection?
    ensures Equals(t, a, b) <==> a.blob == b.blob
  {
  }

  /** Two wrappers are equal exactly when their copies are the same value. */
  lemma EqualsIffSameCopy(t: ColumnType, a: AtomicCellOrCollection, b: AtomicCellOrCollection)
    requires FitsType(t, a) && FitsType(t, b)
    ensures Equals(t, a, b) <==> Copy(a) == Copy(b)
  {
    if !HasNoData(a) && !HasNoData(b) && t.isAtomic {
      CellEqualsIsIdentity(a.cell, b.cell);
    }
  }

  /** `equals` is an equivalence relation on the wrappers of one column type. */
  lemma EqualsIsEquivalence(t: ColumnType, a: AtomicCellOrCollection, b: AtomicCellOrCollection, c: AtomicCellOrCollection)
    requires FitsType(t, a) && FitsType(t, b) && FitsType(t, c)
    ensures Equals(t, a, a)
    ensures Equals(t, a, b) ==> Equals(t, b, a)
    ensures Equals(t, a, b) && Equals(t, b, c) ==> Equals(t, a, c)
  {
    EqualsIffSameCopy(t, a, a);
    EqualsIffSameCopy(t, a, b);
    EqualsIffSameCopy(t, b, a);
    EqualsIffSameCopy(t, b, c);
    EqualsIffSameCopy(t, a, c);
  }

  /** A copy fits the same column type and is equal to the original; copying twice changes nothing. */
  lemma CopyEqualsOriginal(t: ColumnType, w: AtomicCellOrCollection)
    requires FitsType(t, w)
    ensures FitsType(t, Copy(w))
    ensures Equals(t, Copy(w), w) && Equals(t, w, Copy(w))
    ensures Copy(Copy(w)) == Copy(w)
  {
    EqualsIffSameCopy(t, Copy(w), w);
    EqualsIffSameCopy(t, w, Copy(w));
  }

  /** Equal scalar wrappers hold cells the merge comparator ranks `Equal`. */
  lemma EqualsImpliesMergeEqual(t: ColumnType, a: AtomicCellOrCollection, b: AtomicCellOrCollection)
    requires t.isAtomic && FitsType(t, a) && FitsType(t, b)
    requires !HasNoData(a) && !HasNoData(b) && Equals(t, a, b)
    ensures a.Scalar? && b.Scalar?
    ensures CompareForMerge(a.cell, b.cell) == Equal
  {
    MergeLaws.CellEqualsImpliesCompareEqual(a.cell, b.cell);
  }

  /** Wrapping a view and copying the wrapper keeps the cell: the result equals the wrapped view. */
  lemma FromCellViewCopy(t: ColumnType, view: Cell)
    requires t.isAtomic
    ensures Copy(FromCellView(view)) == FromCellView(view)
    ensures Equals(t, Copy(FromCellView(view)), FromCellView(view))
  {
    CopyEqualsOriginal(t, FromCellView(view));
  }
}
