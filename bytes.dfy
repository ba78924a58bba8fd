/**
 Machine integers, byte strings and three-way comparison as the cell core uses
 them: the signed 64-bit integers behind timestamps and clock values, the
 `(uint64_t)` reinterpretation of a signed count, the unsigned lexicographic
 byte comparison `compare_unsigned`, and the 8-byte big-endian layout of a
 counter delta.
 */
module Bytes {

  newtype uint8 = x: int | 0 <= x < 0x100

  const INT64_MIN: int := -0x8000_0000_0000_0000
  const INT64_MAX: int := 0x7fff_ffff_ffff_ffff
  const TWO_TO_THE_64: int := 0x1_0000_0000_0000_0000

  type Int64 = x: int | INT64_MIN <= x <= INT64_MAX
  type UInt64 = x: int | 0 <= x < TWO_TO_THE_64

  /** The result of a three-way comparison (`std::strong_ordering`). */
  datatype Ordering = Less | Equal | Greater {
    /** The result of the same comparison with its operands swapped. */
    function Reverse(): Ordering
    {
      match this
      case Less => Greater
      case Equal => Equal
      case Greater => Less
    }
  }

  /** `x <=> y` on integers. */
  function CompareInt(x: int, y: int): (r: Ordering)
    ensures r == Less <==> x < y
    ensures r == Equal <==> x == y
    ensures r == Greater <==> x > y
  {
    if x < y then Less else if x == y then Equal else Greater
  }

  /** The cast `(uint64_t) x` of a signed 64-bit value: two's complement reinterpretation. */
  function AsUnsigned64(x: Int64): (r: UInt64)
  {
    if x < 0 then x + TWO_TO_THE_64 else x
  }

  /** The inverse cast `(int64_t) u`. */
  function AsSigned64(u: UInt64): (r: Int64)
  {
    if u > INT64_MAX then u - TWO_TO_THE_64 else u
  }

  lemma SignedUnsignedRoundTrip(x: Int64)
    ensures AsSigned64(AsUnsigned64(x)) == x
  {
  }

  /**
   Comparing two signed values after the unsigned cast: values of the same sign
   keep their signed order, and every negative value sorts above every
   non-negative one.
   */
  lemma UnsignedOrderOfSigned(x: Int64, y: Int64)
    ensures CompareInt(AsUnsigned64(x), AsUnsigned64(y)) ==
      if (x < 0) == (y < 0) then CompareInt(x, y)
      else if x < 0 then Greater
      else Less
  {
  }

  /**
   `compare_unsigned`: bytes are compared as unsigned values from the first one
   on; when one string is a prefix of the other, the shorter one is smaller.
   */
  function CompareBytes(a: seq<uint8>, b: seq<uint8>): (r: Ordering)
    decreases |a|
  {
    if a == [] then (if b == [] then Equal else Less)
    else if b == [] then Greater
    else if a[0] != b[0] then CompareInt(a[0] as int, b[0] as int)
    else CompareBytes(a[1..], b[1..])
  }

  /** The textbook definition of "a precedes b in lexicographic order". */
  ghost predicate LexLess(a: seq<uint8>, b: seq<uint8>)
  {
    || (exists k :: 0 <= k < |a| && k < |b| && a[..k] == b[..k] && a[k] < b[k])
    || (|a| < |b| && a == b[..|a|])
  }

  lemma {:induction false} CompareBytesEqual(a: seq<uint8>, b: seq<uint8>)
    ensures CompareBytes(a, b) == Equal <==> a == b
    decreases |a|
  {
    if a != [] && b != [] && a[0] == b[0] {
      CompareBytesEqual(a[1..], b[1..]);
      assert a == [a[0]] + a[1..] && b == [b[0]] + b[1..];
    }
  }

  lemma {:induction false} CompareBytesReverse(a: seq<uint8>, b: seq<uint8>)
    ensures CompareBytes(b, a) == CompareBytes(a, b).Reverse()
    decreases |a|
  {
    if a != [] && b != [] && a[0] == b[0] {
      CompareBytesReverse(a[1..], b[1..]);
    }
  }

  lemma {:induction false} CompareBytesTransitive(a: seq<uint8>, b: seq<uint8>, c: seq<uint8>)
    requires CompareBytes(a, b) != Greater && CompareBytes(b, c) != Greater
    ensures CompareBytes(a, c) != Greater
    decreases |a|
  {
    if a != [] && b != [] && c != [] && a[0] == b[0] == c[0] {
      CompareBytesTransitive(a[1..], b[1..], c[1..]);
    }
  }

  /** `compare_unsigned` decides exactly the textbook lexicographic order. */
  lemma {:induction false} CompareBytesIsLexicographic(a: seq<uint8>, b: seq<uint8>)
    ensures CompareBytes(a, b) == Less <==> LexLess(a, b)
    decreases |a|
  {
    if a == [] {
      assert LexLess(a, b) <==> |b| > 0;
    } else if b == [] {
      assert !LexLess(a, b);
    } else if a[0] != b[0] {
      if a[0] < b[0] {
        assert a[..0] == b[..0];
        assert LexLess(a, b);
      } else {
        forall k | 0 < k <= |a| && k <= |b|
          ensures a[..k] != b[..k]
        {
          assert a[..k][0] != b[..k][0];
        }
        if |a| < |b| {
          assert b[..|a|][0] == b[0];
        }
      }
    } else {
      var a', b' := a[1..], b[1..];
      CompareBytesIsLexicographic(a', b');
      if LexLess(a', b') {
        if exists k :: 0 <= k < |a'| && k < |b'| && a'[..k] == b'[..k] && a'[k] < b'[k] {
          var k :| 0 <= k < |a'| && k < |b'| && a'[..k] == b'[..k] && a'[k] < b'[k];
          assert a[..k + 1] == [a[0]] + a'[..k] && b[..k + 1] == [b[0]] + b'[..k];
          assert a[k + 1] < b[k + 1];
        } else {
          assert a == [a[0]] + a' && b[..|a|] == [b[0]] + b'[..|a'|];
        }
        assert LexLess(a, b);
      }
      if LexLess(a, b) {
        if exists k :: 0 <= k < |a| && k < |b| && a[..k] == b[..k] && a[k] < b[k] {
          var k :| 0 <= k < |a| && k < |b| && a[..k] == b[..k] && a[k] < b[k];
          assert k > 0;
          assert a'[..k - 1] == a[..k][1..] && b'[..k - 1] == b[..k][1..];
          assert a'[k - 1] < b'[k - 1];
        } else {
          assert a' == a[1..] && b'[..|a'|] == b[..|a|][1..];
        }
        assert LexLess(a', b');
      }
    }
  }

  /** Comparing two strings that share nothing after equal-length heads. */
  lemma {:induction false} CompareBytesAppend(x: seq<uint8>, y: seq<uint8>, u: seq<uint8>, v: seq<uint8>)
    requires |x| == |y|
    ensures CompareBytes(x + u, y + v) == if x == y then CompareBytes(u, v) else CompareBytes(x, y)
    decreases |x|
  {
    if x != [] {
      assert (x + u)[1..] == x[1..] + u && (y + v)[1..] == y[1..] + v;
      CompareBytesAppend(x[1..], y[1..], u, v);
      if x[0] == y[0] && x[1..] == y[1..] {
        assert x == [x[0]] + x[1..] && y == [y[0]] + y[1..];
      }
    } else {
      assert x + u == u && y + v == v;
    }
  }

  // ---------------------------------------------------------------------------
  // Big-endian fixed-width integers (the layout of a counter delta)
  // ---------------------------------------------------------------------------

  function Pow256(n: nat): (r: nat)
  {
    if n == 0 then 1 else 256 * Pow256(n - 1)
  }

  lemma Pow256Of8()
    ensures Pow256(8) == TWO_TO_THE_64
  {
    assert Pow256(2) == 0x1_0000;
    assert Pow256(4) == 0x1_0000_0000 by {
      assert Pow256(3) == 0x100_0000;
    }
    assert Pow256(6) == 0x1_0000_0000_0000 by {
      assert Pow256(5) == 0x100_0000_0000;
    }
    assert Pow256(7) == 0x100_0000_0000_0000;
  }

  /** The low `n` bytes of `u`, most significant first. */
  function EncodeBigEndian(u: nat, n: nat): (r: seq<uint8>)
    ensures |r| == n
  {
    if n == 0 then [] else EncodeBigEndian(u / 256, n - 1) + [(u % 256) as uint8]
  }

  function DecodeBigEndian(s: seq<uint8>): (r: nat)
  {
    if s == [] then 0 else DecodeBigEndian(s[..|s| - 1]) * 256 + s[|s| - 1] as int
  }

  lemma {:induction false} DecodeEncodeBigEndian(u: nat, n: nat)
    requires u < Pow256(n)
    ensures DecodeBigEndian(EncodeBigEndian(u, n)) == u
  {
    if n > 0 {
      var s := EncodeBigEndian(u, n);
      assert s[..|s| - 1] == EncodeBigEndian(u / 256, n - 1);
      DecodeEncodeBigEndian(u / 256, n - 1);
    }
  }

  /** On equal widths, the big-endian layout turns unsigned byte order into numeric order. */
  lemma {:induction false} EncodeBigEndianOrder(u: nat, v: nat, n: nat)
    requires u < Pow256(n) && v < Pow256(n)
    ensures CompareBytes(EncodeBigEndian(u, n), EncodeBigEndian(v, n)) == CompareInt(u, v)
  {
    if n > 0 {
      var x, y := EncodeBigEndian(u / 256, n - 1), EncodeBigEndian(v / 256, n - 1);
      EncodeBigEndianOrder(u / 256, v / 256, n - 1);
      CompareBytesAppend(x, y, [(u % 256) as uint8], [(v % 256) as uint8]);
      CompareBytesEqual(x, y);
      if u / 256 < v / 256 {
        assert u < v;
      } else if v / 256 < u / 256 {
        assert v < u;
      }
    }
  }

  /** The 8 value bytes of a counter update: the delta, two's complement, big-endian. */
  function CounterDeltaBytes(delta: Int64): (r: seq<uint8>)
    ensures |r| == 8
  {
    EncodeBigEndian(AsUnsigned64(delta), 8)
  }

  lemma CounterDeltaBytesRoundTrip(delta: Int64)
    ensures DecodeBigEndian(CounterDeltaBytes(delta)) < TWO_TO_THE_64
    ensures AsSigned64(DecodeBigEndian(CounterDeltaBytes(delta))) == delta
  {
    Pow256Of8();
    DecodeEncodeBigEndian(AsUnsigned64(delta), 8);
    SignedUnsignedRoundTrip(delta);
  }

  /** Unsigned byte order of two counter deltas is the unsigned order of the deltas. */
  lemma CounterDeltaBytesOrder(d1: Int64, d2: Int64)
    ensures CompareBytes(CounterDeltaBytes(d1), CounterDeltaBytes(d2)) ==
      CompareInt(AsUnsigned64(d1), AsUnsigned64(d2))
  {
    Pow256Of8();
    EncodeBigEndianOrder(AsUnsigned64(d1), AsUnsigned64(d2), 8);
  }
}
