/**
 * Go's `encoding/binary` signed varint, as the storage engine uses it for
 * length prefixes: `PutVarint` zig-zags a 64-bit signed integer and writes
 * it as unsigned base-128 groups, least significant first, with the high bit
 * of every byte but the last set; `Varint` reverses this and reports how many
 * bytes it consumed (0 when the buffer ends first, a negative count when the
 * value does not fit in 64 bits).
 */
module Binary {

  type byte = x: int | 0 <= x < 256

  /** The most bytes a 64-bit varint occupies (`binary.MaxVarintLen64`). */
  const MaxVarintLen64: nat := 10

  const MinInt64: int := -0x8000_0000_0000_0000
  const MaxInt64: int := 0x7FFF_FFFF_FFFF_FFFF

  predicate IsInt64(x: int) {
    MinInt64 <= x <= MaxInt64
  }

  function Pow128(k: nat): (r: nat)
    ensures r >= 1
  {
    if k == 0 then 1 else 128 * Pow128(k - 1)
  }

  /**
   * The groups `PutUvarint` writes for `u`: every byte but the last has its
   * continuation bit set, and the last has it clear.
   */
  function EncodeUvarint(u: nat): (r: seq<byte>)
    ensures |r| >= 1
    ensures r[|r| - 1] < 0x80
    ensures forall i | 0 <= i < |r| - 1 :: r[i] >= 0x80
    decreases u
  {
    if u < 0x80 then [u] else [u % 0x80 + 0x80] + EncodeUvarint(u / 0x80)
  }

  /** `uint64(x) << 1`, complemented when `x` is negative. */
  function ZigZag(x: int): (u: nat)
    requires IsInt64(x)
    ensures u < 2 * Pow128(MaxVarintLen64 - 1)
    ensures u % 2 == 0 <==> x >= 0
  {
    assert Pow128(9) == 0x8000_0000_0000_0000;
    if x >= 0 then 2 * x else -2 * x - 1
  }

  /** `int64(ux >> 1)`, complemented when the low bit of `ux` is set. */
  function UnZigZag(u: nat): (x: int)
  {
    if u % 2 == 0 then u / 2 else -(u / 2) - 1
  }

  /** `binary.PutVarint`: the bytes written for a signed 64-bit value. */
  function EncodeVarint(x: int): (r: seq<byte>)
    requires IsInt64(x)
    ensures 1 <= |r| <= MaxVarintLen64
    ensures r[|r| - 1] < 0x80
    ensures forall i | 0 <= i < |r| - 1 :: r[i] >= 0x80
  {
    UvarintRoundTrip(ZigZag(x), [], 0);
    EncodeUvarint(ZigZag(x))
  }

  /**
   * The loop of `binary.Uvarint` from the byte at index `pos` on: `buf` is
   * what is left of the buffer. The result is the value of the remaining
   * groups and Go's byte count, which is `pos` plus the bytes consumed on
   * success, 0 when the buffer ends before a terminating byte, and
   * `-(i + 1)` when index `i` overflows 64 bits.
   */
  function UvarintGroups(buf: seq<byte>, pos: nat): (r: (nat, int))
    requires pos <= MaxVarintLen64
    ensures r.1 > 0 ==> pos < r.1 <= pos + |buf| && r.1 <= MaxVarintLen64
    ensures r.1 <= 0 ==> r.0 == 0
    decreases |buf|
  {
    if |buf| == 0 then (0, 0)
    else if pos == MaxVarintLen64 then (0, -(pos + 1))
    else if buf[0] < 0x80 then
      if pos == MaxVarintLen64 - 1 && buf[0] > 1 then (0, -(pos + 1)) else (buf[0], pos + 1)
    else
      var (x, n) := UvarintGroups(buf[1..], pos + 1);
      if n > 0 then (buf[0] - 0x80 + 0x80 * x, n) else (0, n)
  }

  /** `binary.Varint`: the decoded value and the byte count. */
  function Varint(buf: seq<byte>): (r: (int, int))
    ensures r.1 > 0 ==> r.1 <= |buf| && r.1 <= MaxVarintLen64
    ensures r.1 <= 0 ==> r.0 == 0
  {
    var (ux, n) := UvarintGroups(buf, 0);
    (UnZigZag(ux), n)
  }

  lemma ZigZagRoundTrip(x: int)
    requires IsInt64(x)
    ensures UnZigZag(ZigZag(x)) == x
  {
  }

  /**
   * Decoding the groups of `u` gives back `u` and stops right after them,
   * whatever follows, as long as `u` fits in the groups left before index
   * `MaxVarintLen64` (the last of which may hold only one bit).
   */
  lemma {:induction false} UvarintRoundTrip(u: nat, rest: seq<byte>, pos: nat)
    requires pos < MaxVarintLen64
    requires u < 2 * Pow128(MaxVarintLen64 - 1 - pos)
    ensures pos + |EncodeUvarint(u)| <= MaxVarintLen64
    ensures UvarintGroups(EncodeUvarint(u) + rest, pos) == (u, pos + |EncodeUvarint(u)|)
  {
    var buf := EncodeUvarint(u) + rest;
    if u < 0x80 {
      assert buf[0] == u;
      assert pos == MaxVarintLen64 - 1 ==> u <= 1;
    } else {
      var p := Pow128(MaxVarintLen64 - 2 - pos);
      assert pos < MaxVarintLen64 - 1;
      assert u < 256 * p;
      assert u / 0x80 < 2 * p;
      UvarintRoundTrip(u / 0x80, rest, pos + 1);
      assert buf[1..] == EncodeUvarint(u / 0x80) + rest;
      assert buf[0] - 0x80 + 0x80 * (u / 0x80) == u;
    }
  }

  /**
   * `PutVarint` writes between 1 and `MaxVarintLen64` bytes, and `Varint`
   * reads back exactly the value and the byte count that `PutVarint`
   * returned, whatever bytes follow the varint.
   */
  lemma VarintRoundTrip(x: int, rest: seq<byte>)
    requires IsInt64(x)
    ensures 1 <= |EncodeVarint(x)| <= MaxVarintLen64
    ensures Varint(EncodeVarint(x) + rest) == (x, |EncodeVarint(x)|)
  {
    UvarintRoundTrip(ZigZag(x), rest, 0);
    ZigZagRoundTrip(x);
  }

  /**
   * A successful decode depends only on the bytes it consumed: any buffer
   * that agrees on them decodes the same way.
   */
  lemma {:induction false} UvarintPrefix(a: seq<byte>, b: seq<byte>, pos: nat)
    requires pos <= MaxVarintLen64
    requires UvarintGroups(a, pos).1 > 0
    requires UvarintGroups(a, pos).1 - pos <= |b|
    requires a[..UvarintGroups(a, pos).1 - pos] == b[..UvarintGroups(a, pos).1 - pos]
    ensures UvarintGroups(b, pos) == UvarintGroups(a, pos)
  {
    var m := UvarintGroups(a, pos).1 - pos;
    assert a[0] == a[..m][0] == b[..m][0] == b[0];
    if a[0] >= 0x80 {
      var n := UvarintGroups(a[1..], pos + 1).1;
      assert a[1..][..n - pos - 1] == a[..m][1..];
      assert b[1..][..n - pos - 1] == b[..m][1..];
      UvarintPrefix(a[1..], b[1..], pos + 1);
    }
  }

  /** The signed form of `UvarintPrefix`. */
  lemma VarintPrefix(a: seq<byte>, b: seq<byte>)
    requires Varint(a).1 > 0
    requires Varint(a).1 <= |b| && a[..Varint(a).1] == b[..Varint(a).1]
    ensures Varint(b) == Varint(a)
  {
    UvarintPrefix(a, b, 0);
  }
}
