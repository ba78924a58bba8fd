/**
 What the merge comparator guarantees: one rule per tie-break level, the
 order laws that make it a total preorder, how its `Equal` relates to scalar
 equality, and the consequence replicas rely on: reducing any arrangement of
 the same candidate versions picks an equally ranked, and normally the same,
 survivor.
 */
module MergeLaws {
  import opened Bytes
  import opened AtomicCells

  // ---------------------------------------------------------------------------
  // The tie-break levels, one at a time
  // ---------------------------------------------------------------------------

  /** A different timestamp decides on its own, whatever the tags, values and TTLs. */
  lemma TimestampDominance(a: Cell, b: Cell)
    requires a.timestamp > b.timestamp
    ensures CompareForMerge(a, b) == Greater && CompareForMerge(b, a) == Less
  {
  }

  /** At equal timestamps a tombstone wins over any live cell, counter deltas included. */
  lemma DeadWinsAtEqualTimestamp(dead: Cell, live: Cell)
    requires !IsLive(dead) && IsLive(live) && dead.timestamp == live.timestamp
    ensures CompareForMerge(dead, live) == Greater && CompareForMerge(live, dead) == Less
  {
  }

  /** Two live values at one timestamp are ranked by unsigned byte order of the values first. */
  lemma ValueTieBreak(ts: Int64, v1: seq<uint8>, e1: Expiration, v2: seq<uint8>, e2: Expiration)
    requires v1 != v2
    ensures CompareForMerge(Live(ts, v1, e1), Live(ts, v2, e2)) == CompareBytes(v1, v2)
    ensures CompareForMerge(Live(ts, v1, e1), Live(ts, v2, e2)) == Less <==> LexLess(v1, v2)
  {
    CompareBytesEqual(v1, v2);
    CompareBytesIsLexicographic(v1, v2);
  }

  /** With equal timestamps and values, a cell written with a TTL wins over one without. */
  lemma TtlPresenceTieBreak(ts: Int64, v: seq<uint8>, expiry: Int64, ttl: Int64)
    ensures CompareForMerge(Live(ts, v, Expires(expiry, ttl)), Live(ts, v, NoExpiry)) == Greater
    ensures CompareForMerge(Live(ts, v, NoExpiry), Live(ts, v, Expires(expiry, ttl))) == Less
  {
    CompareBytesEqual(v, v);
  }

  /** With equal timestamps and values and both expiring, the later expiry wins. */
  lemma ExpiryTieBreak(ts: Int64, v: seq<uint8>, x1: Int64, t1: Int64, x2: Int64, t2: Int64)
    requires x1 != x2
    ensures CompareForMerge(Live(ts, v, Expires(x1, t1)), Live(ts, v, Expires(x2, t2))) == CompareInt(x1, x2)
  {
    CompareBytesEqual(v, v);
  }

  /** At equal expiry the smaller TTL wins: that cell was written later. */
  lemma TtlTieBreak(ts: Int64, v: seq<uint8>, expiry: Int64, t1: Int64, t2: Int64)
    ensures CompareForMerge(Live(ts, v, Expires(expiry, t1)), Live(ts, v, Expires(expiry, t2))) == CompareInt(t2, t1)
  {
    CompareBytesEqual(v, v);
  }

  /**
   Two tombstones at one timestamp are ranked by deletion time reinterpreted as
   unsigned: signed order within one sign, and a negative deletion time above
   every non-negative one.
   */
  lemma TombstoneTieBreak(ts: Int64, d1: Int64, d2: Int64)
    ensures CompareForMerge(Dead(ts, d1), Dead(ts, d2)) ==
      if (d1 < 0) == (d2 < 0) then CompareInt(d1, d2)
      else if d1 < 0 then Greater
      else Less
  {
    UnsignedOrderOfSigned(d1, d2);
  }

  /**
   Two counter deltas at one timestamp are ranked by their encoded bytes, which
   is the order of the deltas reinterpreted as unsigned 64-bit values.
   */
  lemma CounterUpdateTieBreak(ts: Int64, d1: Int64, d2: Int64)
    ensures CompareForMerge(CounterUpdate(ts, d1), CounterUpdate(ts, d2)) ==
      if (d1 < 0) == (d2 < 0) then CompareInt(d1, d2)
      else if d1 < 0 then Greater
      else Less
  {
    CounterDeltaBytesOrder(d1, d2);
    UnsignedOrderOfSigned(d1, d2);
  }

  // ---------------------------------------------------------------------------
  // Worked pairs
  // ---------------------------------------------------------------------------

  lemma ExampleDeadBeatsLive()
    ensures CompareForMerge(Dead(5, 100), Live(5, [0x78], NoExpiry)) == Greater
  {
  }

  lemma ExampleGreaterValueWins()
    ensures CompareForMerge(Live(5, [0x61, 0x62, 0x63], NoExpiry), Live(5, [0x61, 0x62, 0x64], NoExpiry)) == Less
  {
  }

  lemma ExampleSmallerTtlWins()
    ensures CompareForMerge(Live(5, [0x78], Expires(100, 10)), Live(5, [0x78], Expires(100, 5))) == Less
  {
    CompareBytesEqual([0x78], [0x78]);
  }

  lemma ExampleLaterDeletionWins()
    ensures CompareForMerge(Dead(5, 50), Dead(5, 200)) == Less
    ensures CompareForMerge(Dead(5, -1), Dead(5, 200)) == Greater
  {
  }

  // ---------------------------------------------------------------------------
  // Order laws
  // ---------------------------------------------------------------------------

  /** Swapping the operands reverses the answer. */
  lemma CompareForMergeAntisymmetric(a: Cell, b: Cell)
    ensures CompareForMerge(b, a) == CompareForMerge(a, b).Reverse()
  {
    if a.timestamp == b.timestamp && IsLive(a) && IsLive(b) {
      CompareBytesReverse(Value(a), Value(b));
    }
  }

  /** "Does not win over" is transitive. */
  lemma CompareForMergeTransitive(a: Cell, b: Cell, c: Cell)
    requires CompareForMerge(a, b) != Greater && CompareForMerge(b, c) != Greater
    ensures CompareForMerge(a, c) != Greater
  {
    if a.timestamp == b.timestamp == c.timestamp && IsLive(a) && IsLive(b) && IsLive(c) {
      CompareBytesTransitive(Value(a), Value(b), Value(c));
      CompareBytesEqual(Value(a), Value(b));
      CompareBytesEqual(Value(b), Value(c));
      CompareBytesEqual(Value(a), Value(c));
      CompareBytesReverse(Value(a), Value(b));
      CompareBytesReverse(Value(b), Value(c));
    }
  }

  /** Cells the comparator ranks `Equal` are ranked alike against every third cell. */
  lemma CompareForMergeEqualIsCongruence(a: Cell, b: Cell, c: Cell)
    requires CompareForMerge(a, b) == Equal
    ensures CompareForMerge(a, c) == CompareForMerge(b, c)
    ensures CompareForMerge(c, a) == CompareForMerge(c, b)
  {
    if IsLive(a) && IsLive(b) {
      CompareBytesEqual(Value(a), Value(b));
    }
  }

  /** Winning is transitive. */
  lemma CompareForMergeStrictlyTransitive(a: Cell, b: Cell, c: Cell)
    requires CompareForMerge(a, b) == Less && CompareForMerge(b, c) == Less
    ensures CompareForMerge(a, c) == Less
  {
    CompareForMergeTransitive(a, b, c);
    if CompareForMerge(a, c) == Equal {
      CompareForMergeEqualIsCongruence(a, c, b);
      CompareForMergeAntisymmetric(b, c);
    }
  }

  /**
   A live value whose bytes and timestamp are those of a counter delta: the one
   pair of distinct cells the comparator cannot tell apart.
   */
  predicate CounterAlias(a: Cell, b: Cell)
  {
    || (a.CounterUpdate? && b == Live(a.timestamp, CounterDeltaBytes(a.delta), NoExpiry))
    || (b.CounterUpdate? && a == Live(b.timestamp, CounterDeltaBytes(b.delta), NoExpiry))
  }

  /** The comparator says `Equal` exactly for identical cells and for counter aliases. */
  lemma CompareForMergeEqualIff(a: Cell, b: Cell)
    ensures CompareForMerge(a, b) == Equal <==> a == b || CounterAlias(a, b)
  {
    if a.timestamp == b.timestamp && IsLive(a) && IsLive(b) {
      CompareBytesEqual(Value(a), Value(b));
      if a.CounterUpdate? && b.CounterUpdate? && Value(a) == Value(b) {
        CounterDeltaBytesRoundTrip(a.delta);
        CounterDeltaBytesRoundTrip(b.delta);
      }
    }
    if a == b {
      CompareForMergeReflexive(a);
    }
  }

  /** Scalar equality implies the comparator ranks the two cells `Equal`. */
  lemma CellEqualsImpliesCompareEqual(a: Cell, b: Cell)
    requires CellEquals(a, b)
    ensures CompareForMerge(a, b) == Equal
  {
    CellEqualsIsIdentity(a, b);
    CompareForMergeReflexive(a);
  }

  /** The converse fails: a counter delta and its alias merge as `Equal` but are not equal. */
  lemma CompareEqualDoesNotImplyCellEquals()
    ensures CompareForMerge(CounterUpdate(1, 7), Live(1, CounterDeltaBytes(7), NoExpiry)) == Equal
    ensures !CellEquals(CounterUpdate(1, 7), Live(1, CounterDeltaBytes(7), NoExpiry))
  {
    CompareBytesEqual(CounterDeltaBytes(7), CounterDeltaBytes(7));
  }

  // ---------------------------------------------------------------------------
  // Factories and the comparator
  // ---------------------------------------------------------------------------

  /** Two byte sources that stand for the same bytes build the same cell, ranked alike against any other. */
  lemma MakeLiveSourceIndependent(ts: Int64, s1: ByteSource, s2: ByteSource, other: Cell)
    requires Flatten(s1) == Flatten(s2)
    ensures MakeLive(ts, s1) == MakeLive(ts, s2)
    ensures CompareForMerge(MakeLive(ts, s1), MakeLive(ts, s2)) == Equal
    ensures CompareForMerge(MakeLive(ts, s1), other) == CompareForMerge(MakeLive(ts, s2), other)
  {
    CompareForMergeReflexive(MakeLive(ts, s1));
  }

  /** The same holds for the overloads with an expiry and a TTL. */
  lemma MakeLiveExpiringSourceIndependent(ts: Int64, s1: ByteSource, s2: ByteSource, expiry: Int64, ttl: Int64, other: Cell)
    requires Flatten(s1) == Flatten(s2)
    ensures MakeLiveExpiring(ts, s1, expiry, ttl) == MakeLiveExpiring(ts, s2, expiry, ttl)
    ensures CompareForMerge(MakeLiveExpiring(ts, s1, expiry, ttl), MakeLiveExpiring(ts, s2, expiry, ttl)) == Equal
    ensures CompareForMerge(MakeLiveExpiring(ts, s1, expiry, ttl), other) ==
            CompareForMerge(MakeLiveExpiring(ts, s2, expiry, ttl), other)
  {
    CompareForMergeReflexive(MakeLiveExpiring(ts, s1, expiry, ttl));
  }

  /**
   Regrouping fragments does not change the cell: a run of fragments `fs + gs`
   builds the same cell as the two fragments that coalesce `fs` and `gs`.
   */
  lemma {:induction false} MakeLiveRegrouped(ts: Int64, fs: seq<seq<uint8>>, gs: seq<seq<uint8>>)
    ensures MakeLive(ts, ManagedBytes(fs + gs)) == MakeLive(ts, BufferView([Concat(fs), Concat(gs)]))
  {
    ConcatAppend(fs, gs);
    var pair := [Concat(fs), Concat(gs)];
    assert pair[1..][1..] == [];
    assert Concat(pair[1..]) == Concat(gs) + [];
  }

  /** A contiguous value and the same value cut into fragments of any size build the same cell. */
  lemma MakeLiveFragmentedIsContiguous(ts: Int64, bytes: seq<uint8>, size: nat, expiry: Int64, ttl: Int64)
    requires size > 0
    ensures MakeLive(ts, ManagedBytes(Chunks(bytes, size))) == MakeLive(ts, Contiguous(bytes))
    ensures MakeLive(ts, BufferView(Chunks(bytes, size))) == MakeLive(ts, Contiguous(bytes))
    ensures MakeLive(ts, TemporaryBuffer(Chunks(bytes, size))) == MakeLive(ts, Contiguous(bytes))
    ensures MakeLiveExpiring(ts, ManagedBytes(Chunks(bytes, size)), expiry, ttl) ==
            MakeLiveExpiring(ts, Contiguous(bytes), expiry, ttl)
    ensures MakeLiveExpiring(ts, BufferView(Chunks(bytes, size)), expiry, ttl) ==
            MakeLiveExpiring(ts, Contiguous(bytes), expiry, ttl)
    ensures MakeLiveExpiring(ts, TemporaryBuffer(Chunks(bytes, size)), expiry, ttl) ==
            MakeLiveExpiring(ts, Contiguous(bytes), expiry, ttl)
  {
    ChunksConcat(bytes, size);
  }

  // ---------------------------------------------------------------------------
  // Multi-way merge as a fold
  // ---------------------------------------------------------------------------

  /** The survivor of a pairwise merge: `b` when it wins, otherwise `a`. */
  function Reconcile(a: Cell, b: Cell): (r: Cell)
    ensures r == a || r == b
  {
    if CompareForMerge(a, b) == Less then b else a
  }

  /** A left fold of `Reconcile` over the candidate versions. */
  function ReconcileAll(cells: seq<Cell>): (r: Cell)
    requires |cells| > 0
  {
    if |cells| == 1 then cells[0]
    else Reconcile(ReconcileAll(cells[..|cells| - 1]), cells[|cells| - 1])
  }

  lemma ReconcileWins(a: Cell, b: Cell)
    ensures CompareForMerge(a, Reconcile(a, b)) != Greater
    ensures CompareForMerge(b, Reconcile(a, b)) != Greater
  {
    CompareForMergeReflexive(a);
    CompareForMergeReflexive(b);
    CompareForMergeAntisymmetric(a, b);
  }

  /** The fold returns one of the candidates, and no candidate wins over it. */
  lemma {:induction false} ReconcileAllIsMaximum(cells: seq<Cell>)
    requires |cells| > 0
    ensures ReconcileAll(cells) in cells
    ensures forall i :: 0 <= i < |cells| ==> CompareForMerge(cells[i], ReconcileAll(cells)) != Greater
  {
    if |cells| == 1 {
      CompareForMergeReflexive(cells[0]);
    } else {
      var init, last := cells[..|cells| - 1], cells[|cells| - 1];
      ReconcileAllIsMaximum(init);
      var acc := ReconcileAll(init);
      var r := Reconcile(acc, last);
      ReconcileWins(acc, last);
      forall i | 0 <= i < |cells|
        ensures CompareForMerge(cells[i], r) != Greater
      {
        if i < |cells| - 1 {
          assert cells[i] == init[i];
          CompareForMergeTransitive(cells[i], acc, r);
        }
      }
    }
  }

  /** Any arrangement of the same candidates yields survivors the comparator ranks `Equal`. */
  lemma ReconcileAllOrderIndependent(s: seq<Cell>, t: seq<Cell>)
    requires |s| > 0 && multiset(s) == multiset(t)
    ensures |t| > 0
    ensures CompareForMerge(ReconcileAll(s), ReconcileAll(t)) == Equal
  {
    assert |t| == |multiset(t)| == |multiset(s)| == |s|;
    ReconcileAllIsMaximum(s);
    ReconcileAllIsMaximum(t);
    var rs, rt := ReconcileAll(s), ReconcileAll(t);
    assert rs in multiset(t);
    assert rt in multiset(s);
    var i :| 0 <= i < |t| && t[i] == rs;
    var j :| 0 <= j < |s| && s[j] == rt;
    CompareForMergeAntisymmetric(rs, rt);
  }

  /**
   When no two candidates are counter aliases, every arrangement yields the
   very same survivor: all replicas keep identical data.
   */
  lemma ReconcileAllSameSurvivor(s: seq<Cell>, t: seq<Cell>)
    requires |s| > 0 && multiset(s) == multiset(t)
    requires forall i, j :: 0 <= i < |s| && 0 <= j < |s| ==> !CounterAlias(s[i], s[j])
    ensures |t| > 0 && ReconcileAll(s) == ReconcileAll(t)
  {
    ReconcileAllOrderIndependent(s, t);
    ReconcileAllIsMaximum(s);
    ReconcileAllIsMaximum(t);
    var rs, rt := ReconcileAll(s), ReconcileAll(t);
    assert rt in multiset(s);
    var i :| 0 <= i < |s| && s[i] == rs;
    var j :| 0 <= j < |s| && s[j] == rt;
    CompareForMergeEqualIff(rs, rt);
  }
}
