# Atomic cells and their reconciliation

A model of the cell layer of a column-family storage engine (ScyllaDB's
`mutation/atomic_cell.cc`). An atomic cell is the smallest versioned unit of a
column's value: a live value, a tombstone, or a counter delta. Each cell has the
writer's signed 64-bit timestamp. A live value may also have an expiry time
and the TTL it was written with. Replicas accept writes without coordination.
So every read, compaction and repair path must pick the surviving version of a
cell in the same way on every replica. The merge comparator
`compare_atomic_cell_for_merge` makes that choice. The model states it as a
function and proves its tie-break rules and order laws. It also models:

- the structural equality of `atomic_cell_or_collection`, a wrapper that holds
  nothing, one cell, or an opaque collection blob;
- the wrapper's copy and its view constructor;
- the cell factories.

Files and modules:

- `bytes.dfy`, module `Bytes`. Signed and unsigned 64-bit integers and the
  `(uint64_t)` cast. Three-way comparison. `compare_unsigned` on byte strings,
  proved equal to the textbook lexicographic order. The 8-byte big-endian
  layout of a counter delta.
- `atomic_cell.dfy`, module `AtomicCells`. The `Cell` datatype and the view
  accessors (`is_live`, `is_live_and_has_ttl`, `value`, ...). Byte sources and
  the factories. The comparator `CompareForMerge`. The scalar branch of
  `equals` (`CellEquals`).
- `merge_laws.dfy`, module `MergeLaws`. One lemma per tie-break level. The
  laws of a total preorder. How the comparator's `Equal` relates to equality.
  Source-independence of the factories. A multi-way merge written as a fold,
  whose survivor does not depend on the order of the fold.
- `atomic_cell_or_collection.dfy`, module `CellOrCollection`. The wrapper,
  `copy`, the view constructor and `equals`.

Modelling decisions:

- Cells are values, not encoded bytes. Borrowing a view and duplicating it
  give the same value, since the model has no ownership or lifetimes.
- Timestamps, deletion times, expiry times and TTLs are signed 64-bit
  integers (`Int64`). The comparator casts the deletion time to unsigned
  64-bit (`AsUnsigned64`), so a negative deletion time sorts above every
  non-negative one.
- The comparator reads `value()` of every live cell, counter deltas included.
  The layout header (`atomic_cell_type`) is not part of this model. The value
  bytes of a counter delta are taken to be the delta as 8 big-endian bytes in
  two's complement (`CounterDeltaBytes`). Under that layout, two counter deltas
  at one timestamp are ranked by their unsigned reinterpretation
  (`MergeLaws.CounterUpdateTieBreak`).
- `compare_unsigned` comes from a bytes utility that is not part of this
  model. It is modelled as unsigned lexicographic comparison in which a proper
  prefix is smaller.
- The wrapper keeps the kind of its contents (`Empty`, `Scalar`,
  `Collection`). The source only has bytes, and it reads them as a cell or as
  a blob according to the column type. `equals` therefore requires both
  wrappers to fit the column type (`FitsType`): an empty wrapper fits any
  type, a cell fits an atomic type, and a blob fits any other type. An empty
  blob stores no bytes, so it counts as empty (`HasNoData`), just as
  `_data.empty()` does.
- The column type is reduced to its three capability flags (`ColumnType`).
  Of these, only `is_atomic` is read. The `type` and `collection_member`
  arguments of the factories are not used by their bodies and are dropped.
- Three facts about the comparator that the code decides:
  - At equal timestamps the code returns `less` for a live `left` against a
    dead `right` (`mutation/atomic_cell.cc:79`), so the tombstone wins.
    `MergeLaws.DeadWinsAtEqualTimestamp` and `MergeLaws.ExampleDeadBeatsLive`
    state this.
  - The comparator is a total preorder, not a strict total order: a counter
    delta and a live value holding that delta's 8 bytes at the same timestamp
    are distinct cells ranked `Equal` (`MergeLaws.CompareForMergeEqualIff`,
    `MergeLaws.CompareEqualDoesNotImplyCellEquals`). On every other pair,
    `Equal` means identical.
  - Counter deltas are not singled out: they are compared through their value
    bytes like any live cell (`mutation/atomic_cell.cc:82`).

## Model

| member | source | states |
|---|---|---|
| `Bytes.CompareInt` | mutation/atomic_cell.cc:76 | the three-way result of `<=>` is `Less`, `Equal` or `Greater` exactly when the first operand is smaller, equal or larger |
| `Bytes.SignedUnsignedRoundTrip` | mutation/atomic_cell.cc:106-107 | casting a signed count to unsigned 64-bit loses nothing: casting back gives the count |
| `Bytes.UnsignedOrderOfSigned` | mutation/atomic_cell.cc:106-107 | after the `(uint64_t)` cast, counts of one sign keep their order and every negative count ranks above every non-negative one |
| `Bytes.CompareBytesIsLexicographic` | mutation/atomic_cell.cc:82 | `compare_unsigned` answers `Less` exactly when the first string precedes the second in lexicographic order: a smaller byte at the first difference, or a proper prefix |
| `Bytes.CompareBytesEqual` | mutation/atomic_cell.cc:82 | `compare_unsigned` answers `Equal` exactly for identical strings |
| `Bytes.CompareBytesReverse` | mutation/atomic_cell.cc:82 | swapping the strings reverses the answer of `compare_unsigned` |
| `Bytes.CompareBytesTransitive` | mutation/atomic_cell.cc:82 | "not greater" under `compare_unsigned` is transitive |
| `Bytes.CompareBytesAppend` | mutation/atomic_cell.cc:82 | after two heads of equal length, the heads decide unless they are equal, and then the tails decide |
| `Bytes.DecodeEncodeBigEndian` | mutation/atomic_cell.cc:144 | decoding the big-endian bytes of a value that fits in `n` bytes returns it |
| `Bytes.EncodeBigEndianOrder` | mutation/atomic_cell.cc:82 | at one width, the unsigned byte order of big-endian encodings is the numeric order of the values |
| `Bytes.CounterDeltaBytesRoundTrip` | mutation/atomic_cell.cc:144 | the 8 value bytes of a counter delta decode back to the delta, so distinct deltas have distinct bytes |
| `Bytes.CounterDeltaBytesOrder` | mutation/atomic_cell.cc:82 | comparing the value bytes of two counter deltas compares the deltas as unsigned 64-bit values |
| `AtomicCells.ConcatAppend` | mutation/atomic_cell.cc:22-24 | the bytes of a fragmented value do not depend on where the fragments are cut: concatenating two runs of fragments concatenates their bytes |
| `AtomicCells.ChunksConcat` | mutation/atomic_cell.cc:18-24 | a contiguous value cut into fragments of any positive size flattens back to the same bytes |
| `AtomicCells.Chunks` | mutation/atomic_cell.cc:22-24 | a fragmentation of a value into non-empty fragments of at most the given size |
| `AtomicCells.MakeDead` | mutation/atomic_cell.cc:14-16 | the result is a tombstone with the given timestamp and deletion time |
| `AtomicCells.MakeLive` | mutation/atomic_cell.cc:18-33 | every overload without a TTL gives a live, non-counter cell without a TTL, with the timestamp and the flattened bytes of the source |
| `AtomicCells.MakeLiveExpiring` | mutation/atomic_cell.cc:35-54 | every overload with a TTL gives a live, non-counter cell with the timestamp, the flattened bytes of the source, the expiry and the TTL |
| `AtomicCells.MakeLiveCounterUpdate` | mutation/atomic_cell.cc:56-58 | the result is a live counter delta without a TTL, with the given timestamp and delta |
| `AtomicCells.MakeLiveUninitialized` | mutation/atomic_cell.cc:60-62 | the result is a live, non-counter cell without a TTL, with the timestamp and a value of exactly `size` bytes whose contents are not promised |
| `AtomicCells.CopyOfView` | mutation/atomic_cell.cc:64-67 | a cell built from a view is equal to the view and merges as `Equal` with it |
| `AtomicCells.CompareForMergeReflexive` | mutation/atomic_cell.cc:73-110 | every cell compares `Equal` with itself |
| `AtomicCells.CellEqualsIsIdentity` | mutation/atomic_cell.cc:130-156 | the scalar branch of `equals` holds exactly for identical cells: it checks timestamp, liveness, the counter flag, the delta alone for counters, TTL and expiry when present, the value of a live cell and the deletion time of a dead one |
| `MergeLaws.TimestampDominance` | mutation/atomic_cell.cc:75-77 | the cell with the larger timestamp wins in both argument orders, whatever the tags, values and TTLs |
| `MergeLaws.DeadWinsAtEqualTimestamp` | mutation/atomic_cell.cc:78-80 | at equal timestamps a dead cell compares greater than a live one, and a live `left` against a dead `right` gives `Less` |
| `MergeLaws.ValueTieBreak` | mutation/atomic_cell.cc:81-85 | two different live values at one timestamp are ranked by `compare_unsigned` of the values, whatever their TTLs: `Less` exactly when the left value precedes lexicographically |
| `MergeLaws.TtlPresenceTieBreak` | mutation/atomic_cell.cc:86-89 | with equal timestamp and value, a cell with a TTL compares greater than one without, in both orders |
| `MergeLaws.ExpiryTieBreak` | mutation/atomic_cell.cc:90-92 | with equal timestamp and value, both with a TTL, different expiry times decide and the later expiry wins |
| `MergeLaws.TtlTieBreak` | mutation/atomic_cell.cc:93-97 | with equal timestamp, value and expiry, the smaller TTL wins |
| `MergeLaws.TombstoneTieBreak` | mutation/atomic_cell.cc:99-108 | two tombstones at one timestamp are ranked by deletion time as unsigned 64-bit: signed order within one sign, a negative deletion time above any non-negative one |
| `MergeLaws.CounterUpdateTieBreak` | mutation/atomic_cell.cc:81-85 | two counter deltas at one timestamp are ranked by the deltas as unsigned 64-bit values, so a negative delta wins over a non-negative one |
| `MergeLaws.ExampleDeadBeatsLive` | mutation/atomic_cell.cc:78-80 | (ts 5, dead, deletion time 100) wins over (ts 5, live, "x") |
| `MergeLaws.ExampleGreaterValueWins` | mutation/atomic_cell.cc:81-85 | (ts 5, "abc") loses to (ts 5, "abd") |
| `MergeLaws.ExampleSmallerTtlWins` | mutation/atomic_cell.cc:93-97 | at expiry 100, the cell with TTL 10 loses to the one with TTL 5 |
| `MergeLaws.ExampleLaterDeletionWins` | mutation/atomic_cell.cc:99-108 | deletion time 50 loses to 200, and deletion time -1 wins over 200 |
| `MergeLaws.CompareForMergeAntisymmetric` | mutation/atomic_cell.cc:73-110 | `compare(b, a)` is the reverse of `compare(a, b)` |
| `MergeLaws.CompareForMergeTransitive` | mutation/atomic_cell.cc:73-110 | "does not win over" is transitive |
| `MergeLaws.CompareForMergeEqualIsCongruence` | mutation/atomic_cell.cc:73-110 | two cells ranked `Equal` compare the same way against every third cell, on either side |
| `MergeLaws.CompareForMergeStrictlyTransitive` | mutation/atomic_cell.cc:73-110 | winning is transitive |
| `MergeLaws.CompareForMergeEqualIff` | mutation/atomic_cell.cc:73-110 | the comparator answers `Equal` exactly for identical cells, or for a counter delta against a live value holding that delta's bytes at the same timestamp |
| `MergeLaws.CellEqualsImpliesCompareEqual` | mutation/atomic_cell.cc:130-156 | two cells that scalar `equals` accepts compare `Equal` |
| `MergeLaws.CompareEqualDoesNotImplyCellEquals` | mutation/atomic_cell.cc:78-85 | a counter delta and a live value holding its bytes compare `Equal`, yet `equals` rejects them (the counter flags differ) |
| `MergeLaws.MakeLiveSourceIndependent` | mutation/atomic_cell.cc:18-33 | two byte sources with the same bytes build the same cell, which compares `Equal` with itself and alike against any other cell |
| `MergeLaws.MakeLiveExpiringSourceIndependent` | mutation/atomic_cell.cc:35-54 | for the overloads with a TTL, two byte sources with the same bytes build the same cell, which compares `Equal` with itself and alike against any other cell |
| `MergeLaws.MakeLiveRegrouped` | mutation/atomic_cell.cc:22-28 | regrouping a run of fragments into two coalesced fragments, from one fragmented source kind to another, builds the same cell |
| `MergeLaws.MakeLiveFragmentedIsContiguous` | mutation/atomic_cell.cc:18-54 | a contiguous value and the same value cut into fragments of any size, from any fragmented source kind, build the same cell, with or without a TTL |
| `MergeLaws.Reconcile` | mutation/atomic_cell.cc:73-110 | a pairwise merge keeps one of its two candidates |
| `MergeLaws.ReconcileWins` | mutation/atomic_cell.cc:73-110 | neither candidate compares greater than the survivor of a pairwise merge |
| `MergeLaws.ReconcileAllIsMaximum` | mutation/atomic_cell.cc:73-110 | a fold of pairwise merges returns one of the candidates, and no candidate compares greater than it |
| `MergeLaws.ReconcileAllOrderIndependent` | mutation/atomic_cell.cc:73-110 | folding any arrangement of the same candidates gives survivors that compare `Equal` |
| `MergeLaws.ReconcileAllSameSurvivor` | mutation/atomic_cell.cc:73-110 | when no two candidates are counter aliases, every arrangement gives the very same survivor |
| `CellOrCollection.FromCellView` | mutation/atomic_cell.cc:119-122 | wrapping a cell view gives a non-empty scalar wrapper that holds exactly that cell and fits every atomic type |
| `CellOrCollection.Copy` | mutation/atomic_cell.cc:112-117 | a wrapper that stores nothing copies to the empty wrapper; any other wrapper copies to the same contents |
| `CellOrCollection.CopyEqualsOriginal` | mutation/atomic_cell.cc:112-117 | a copy fits the same column type, `equals` accepts it against the original in both orders, and copying a copy changes nothing |
| `CellOrCollection.FromCellViewCopy` | mutation/atomic_cell.cc:112-122 | copying a wrapped view keeps the cell, and the copy equals the wrapper |
| `CellOrCollection.EqualsEmpty` | mutation/atomic_cell.cc:126-128 | an empty wrapper equals exactly the wrappers that store nothing, in either argument order |
| `CellOrCollection.EqualsAtomic` | mutation/atomic_cell.cc:130-156 | for an atomic column, two non-empty wrappers are equal exactly when they hold the same cell |
| `CellOrCollection.EqualsCollection` | mutation/atomic_cell.cc:157-158 | for any other column, two non-empty wrappers are equal exactly when their blobs are the same bytes |
| `CellOrCollection.EqualsIffSameCopy` | mutation/atomic_cell.cc:124-160 | two wrappers are equal exactly when their copies are the same value |
| `CellOrCollection.EqualsIsEquivalence` | mutation/atomic_cell.cc:124-160 | `equals` is reflexive, symmetric and transitive on the wrappers of one column type |
| `CellOrCollection.EqualsImpliesMergeEqual` | mutation/atomic_cell.cc:130-156 | equal scalar wrappers hold cells the merge comparator ranks `Equal` |

## Left out

- The diagnostic printers (`mutation/atomic_cell.cc:167-236`). They only format text, through formatting, type and counter-shard code that is not part of this model.
- `external_memory_usage` (`mutation/atomic_cell.cc:162-165`). It only forwards to an allocator-dependent query of `managed_bytes`, which is not part of this model, so the model has nothing to state about it.
- The binary layout of a cell, its decoding and the decode/encode round trip. They live in `atomic_cell_type`, which is not part of this model; a cell is a datatype here.
- `AtomicCells.MakeLiveUninitialized`: the in-place fill of the reserved bytes is not modelled. The model fills them with zeros, and its contract promises only their number.
- The ownership and lifetime of views (borrowed against duplicated storage): values have neither.
- `CellOrCollection.Equals` and the rest of the wrapper are not defined on contents that do not fit the column type (`FitsType`). The source would reinterpret such bytes in a way the model cannot describe without the layout.
- Counter cells made of shards (not updates) are ordinary live values here; their shard structure is not part of this model.
- The cluster-membership HTTP routes (`api/gossiper.cc`): an unrelated subsystem.
