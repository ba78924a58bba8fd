/**
 An atomic cell: the smallest versioned unit of a column's value. A cell is a
 live value, a tombstone, or a counter delta; it carries the writer's
 timestamp, and a live value may carry an expiry time and the TTL it was
 written with.

 The cell is modelled as a value, not as its encoded bytes. The one place
 where the comparator looks at encoded bytes of a cell that has no payload of
 its own is a counter delta, whose value bytes are modelled by
 `Bytes.CounterDeltaBytes`.
 */
module AtomicCells {
  import opened Bytes

  /** The `(expiry, ttl)` pair of a live cell: both present or both absent. */
  datatype Expiration = NoExpiry | Expires(expiry: Int64, ttl: Int64)

  datatype Cell =
    | Live(timestamp: Int64, value: seq<uint8>, expiration: Expiration)
    | Dead(timestamp: Int64, deletionTime: Int64)
    | CounterUpdate(timestamp: Int64, delta: Int64)

  // ---------------------------------------------------------------------------
  // The accessors of a cell view
  // ---------------------------------------------------------------------------

  /** `is_live()`: live values and counter deltas are live, even once a TTL has run out. */
  predicate IsLive(c: Cell)
  {
    !c.Dead?
  }

  predicate IsCounterUpdate(c: Cell)
  {
    c.CounterUpdate?
  }

  /** `is_live_and_has_ttl()`. */
  predicate HasTtl(c: Cell)
  {
    c.Live? && c.expiration.Expires?
  }

  /** `value()`: the payload of a live cell; for a counter delta, its 8 encoded bytes. */
  function Value(c: Cell): (r: seq<uint8>)
    requires IsLive(c)
  {
    match c
    case Live(_, v, _) => v
    case CounterUpdate(_, d) => CounterDeltaBytes(d)
  }

  function Expiry(c: Cell): (r: Int64)
    requires HasTtl(c)
  {
    c.expiration.expiry
  }

  function Ttl(c: Cell): (r: Int64)
    requires HasTtl(c)
  {
    c.expiration.ttl
  }

  function DeletionTime(c: Cell): (r: Int64)
    requires !IsLive(c)
  {
    c.deletionTime
  }

  function CounterUpdateValue(c: Cell): (r: Int64)
    requires IsCounterUpdate(c)
  {
    c.delta
  }

  // ---------------------------------------------------------------------------
  // Byte sources and factories
  // ---------------------------------------------------------------------------

  /**
   The byte sources a live value can be built from: a contiguous `bytes_view`,
   a fragmented `managed_bytes_view`, a `ser::buffer_view` over the fragments
   of an output stream, and a `fragmented_temporary_buffer::view`.
   */
  datatype ByteSource =
    | Contiguous(bytes: seq<uint8>)
    | ManagedBytes(fragments: seq<seq<uint8>>)
    | BufferView(fragments: seq<seq<uint8>>)
    | TemporaryBuffer(fragments: seq<seq<uint8>>)

  /** The bytes of a run of fragments, in order. */
  function Concat(fragments: seq<seq<uint8>>): (r: seq<uint8>)
  {
    if fragments == [] then [] else fragments[0] + Concat(fragments[1..])
  }

  /** The value a byte source stands for. */
  function Flatten(src: ByteSource): (r: seq<uint8>)
  {
    match src
    case Contiguous(bytes) => bytes
    case ManagedBytes(fs) => Concat(fs)
    case BufferView(fs) => Concat(fs)
    case TemporaryBuffer(fs) => Concat(fs)
  }

  /** Fragment boundaries do not matter: concatenating two runs of fragments concatenates their bytes. */
  lemma {:induction false} ConcatAppend(fs: seq<seq<uint8>>, gs: seq<seq<uint8>>)
    ensures Concat(fs + gs) == Concat(fs) + Concat(gs)
  {
    if fs != [] {
      assert (fs + gs)[1..] == fs[1..] + gs;
      ConcatAppend(fs[1..], gs);
    } else {
      assert fs + gs == gs;
    }
  }

  /** `bytes` cut into fragments of at most `size` bytes. */
  function Chunks(bytes: seq<uint8>, size: nat): (r: seq<seq<uint8>>)
    requires size > 0
    ensures forall i :: 0 <= i < |r| ==> 0 < |r[i]| <= size
    decreases |bytes|
  {
    if |bytes| <= size then (if bytes == [] then [] else [bytes])
    else [bytes[..size]] + Chunks(bytes[size..], size)
  }

  /** Cutting a contiguous value into fragments of any size and flattening it back gives the value. */
  lemma {:induction false} ChunksConcat(bytes: seq<uint8>, size: nat)
    requires size > 0
    ensures Concat(Chunks(bytes, size)) == bytes
    decreases |bytes|
  {
    if |bytes| > size {
      var rest := Chunks(bytes[size..], size);
      assert ([bytes[..size]] + rest)[1..] == rest;
      ChunksConcat(bytes[size..], size);
      assert bytes == bytes[..size] + bytes[size..];
    } else if bytes != [] {
      assert [bytes][1..] == [];
      assert Concat([bytes]) == bytes + [];
    }
  }

  function MakeDead(timestamp: Int64, deletionTime: Int64): (r: Cell)
    ensures !IsLive(r) && r.timestamp == timestamp && DeletionTime(r) == deletionTime
  {
    Dead(timestamp, deletionTime)
  }

  /** Every `make_live` overload without a TTL; the byte-source kind is the only difference between them. */
  function MakeLive(timestamp: Int64, value: ByteSource): (r: Cell)
    ensures IsLive(r) && !IsCounterUpdate(r) && !HasTtl(r)
    ensures r.timestamp == timestamp && Value(r) == Flatten(value)
  {
    Live(timestamp, Flatten(value), NoExpiry)
  }

  /** Every `make_live` overload with an expiry and a TTL. */
  function MakeLiveExpiring(timestamp: Int64, value: ByteSource, expiry: Int64, ttl: Int64): (r: Cell)
    ensures IsLive(r) && !IsCounterUpdate(r) && HasTtl(r)
    ensures r.timestamp == timestamp && Value(r) == Flatten(value)
    ensures Expiry(r) == expiry && Ttl(r) == ttl
  {
    Live(timestamp, Flatten(value), Expires(expiry, ttl))
  }

  function MakeLiveCounterUpdate(timestamp: Int64, delta: Int64): (r: Cell)
    ensures IsLive(r) && IsCounterUpdate(r) && !HasTtl(r)
    ensures r.timestamp == timestamp && CounterUpdateValue(r) == delta
  {
    CounterUpdate(timestamp, delta)
  }

  /**
   `make_live_uninitialized`: a live cell without a TTL whose value has room for
   `size` bytes. The caller fills those bytes in place afterwards; the model
   fixes them to zero and the contract promises nothing about them.
   */
  function MakeLiveUninitialized(timestamp: Int64, size: nat): (r: Cell)
    ensures IsLive(r) && !IsCounterUpdate(r) && !HasTtl(r)
    ensures r.timestamp == timestamp && |Value(r)| == size
  {
    Live(timestamp, seq(size, _ => 0 as uint8), NoExpiry)
  }

  /**
   `atomic_cell(type, view)`: an owned copy of a cell view. Borrowing and
   duplicating cannot be told apart on values, so the copy is the view itself.
   */
  function CopyOfView(view: Cell): (r: Cell)
    ensures CellEquals(r, view) && CompareForMerge(r, view) == Equal
  {
    CellEqualsIsIdentity(view, view);
    CompareForMergeReflexive(view);
    view
  }

  // ---------------------------------------------------------------------------
  // Reconciliation
  // ---------------------------------------------------------------------------

  /**
   `compare_atomic_cell_for_merge`: which of two versions of the same cell
   survives a merge. `Greater` means `left` wins. The first rule that tells the
   two apart decides: the timestamp; then a dead cell wins over a live one;
   then, between live cells, the unsigned byte order of the values, a cell with
   a TTL over one without, the later expiry, and the smaller TTL; between dead
   cells, the deletion time read as an unsigned 64-bit count.
   */
  function CompareForMerge(left: Cell, right: Cell): (r: Ordering)
  {
    if left.timestamp != right.timestamp then
      CompareInt(left.timestamp, right.timestamp)
    else if IsLive(left) != IsLive(right) then
      (if IsLive(left) then Less else Greater)
    else if IsLive(left) then
      var c := CompareBytes(Value(left), Value(right));
      if c != Equal then c
      else if HasTtl(left) != HasTtl(right) then
        (if HasTtl(left) then Greater else Less)
      else if HasTtl(left) then
        (if Expiry(left) != Expiry(right) then CompareInt(Expiry(left), Expiry(right))
         else CompareInt(Ttl(right), Ttl(left)))
      else Equal
    else
      CompareInt(AsUnsigned64(DeletionTime(left)), AsUnsigned64(DeletionTime(right)))
  }

  lemma CompareForMergeReflexive(c: Cell)
    ensures CompareForMerge(c, c) == Equal
  {
    if IsLive(c) {
      CompareBytesEqual(Value(c), Value(c));
    }
  }

  // ---------------------------------------------------------------------------
  // Structural equality of two scalar cells
  // ---------------------------------------------------------------------------

  /**
   The atomic branch of `atomic_cell_or_collection::equals`: timestamps and
   liveness must agree; live cells must agree on being counter deltas, deltas
   are compared alone, and other live cells compare TTL, expiry and value; dead
   cells compare deletion times.
   */
  predicate CellEquals(a: Cell, b: Cell)
  {
    if a.timestamp != b.timestamp then false
    else if IsLive(a) != IsLive(b) then false
    else if IsLive(a) then
      if IsCounterUpdate(a) != IsCounterUpdate(b) then false
      else if IsCounterUpdate(a) then CounterUpdateValue(a) == CounterUpdateValue(b)
      else if HasTtl(a) != HasTtl(b) then false
      else if HasTtl(a) && (Ttl(a) != Ttl(b) || Expiry(a) != Expiry(b)) then false
      else Value(a) == Value(b)
    else
      DeletionTime(a) == DeletionTime(b)
  }

  /** Scalar equality checks every field there is: it is exactly identity of cells. */
  lemma CellEqualsIsIdentity(a: Cell, b: Cell)
    ensures CellEquals(a, b) <==> a == b
  {
  }
}
