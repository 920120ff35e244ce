/** Bytes, the fixed-width integers of the wire format, and concatenation of byte runs. */
module Bytes {
  type byte = x: int | 0 <= x < 0x100

  const UINT32_RANGE: int := 0x1_0000_0000

  /** The four bytes of `n` in network order (most significant byte first). */
  function ToNetwork(n: nat): (b: seq<byte>)
    requires n < UINT32_RANGE
    ensures |b| == 4
  {
    [n / 0x100_0000, n / 0x1_0000 % 0x100, n / 0x100 % 0x100, n % 0x100]
  }

  /** The host value of four bytes in network order. */
  function FromNetwork(b: seq<byte>): (n: nat)
    requires |b| == 4
    ensures n < UINT32_RANGE
  {
    b[0] as int * 0x100_0000 + b[1] as int * 0x1_0000 + b[2] as int * 0x100 + b[3]
  }

  lemma NetworkRoundTrip(n: nat)
    requires n < UINT32_RANGE
    ensures FromNetwork(ToNetwork(n)) == n
  {
    assert n == n / 0x100 * 0x100 + n % 0x100;
    assert n / 0x100 / 0x100 == n / 0x1_0000 && n / 0x1_0000 / 0x100 == n / 0x100_0000;
  }

  lemma NetworkRoundTripBack(b: seq<byte>)
    requires |b| == 4
    ensures ToNetwork(FromNetwork(b)) == b
  {
    var n := FromNetwork(b);
    assert n / 0x100 == b[0] as int * 0x1_0000 + b[1] as int * 0x100 + b[2];
    assert n / 0x1_0000 == b[0] as int * 0x100 + b[1];
  }

  /** A C conversion to a 32-bit `int`. */
  function ToInt32(x: int): (r: int)
    ensures -0x8000_0000 <= r < 0x8000_0000
    ensures (r - x) % UINT32_RANGE == 0
  {
    var low := x % UINT32_RANGE;
    if low < 0x8000_0000 then low else low - UINT32_RANGE
  }

  /** All the pieces, one after the other. */
  function Flatten<T>(pieces: seq<seq<T>>): seq<T> {
    if pieces == [] then [] else pieces[0] + Flatten(pieces[1..])
  }

  lemma {:induction false} FlattenAppend<T>(a: seq<seq<T>>, b: seq<seq<T>>)
    ensures Flatten(a + b) == Flatten(a) + Flatten(b)
  {
    if a == [] {
      assert a + b == b;
    } else {
      assert (a + b)[1..] == a[1..] + b;
      FlattenAppend(a[1..], b);
    }
  }

  lemma FlattenSnoc<T>(a: seq<seq<T>>, last: seq<T>)
    ensures Flatten(a + [last]) == Flatten(a) + last
  {
    FlattenAppend(a, [last]);
    assert Flatten([last]) == last;
  }

  /** Copies what there is of `src[at..len]`, but at most `needed` bytes, to position `to` of `dst`. */
  method CopyBytes(src: array<byte>, at: nat, len: nat, dst: array<byte>, to: nat, needed: nat)
    returns (copied: nat)
    requires at <= len <= src.Length && to + needed <= dst.Length && src != dst
    modifies dst
    ensures copied == if len - at < needed then len - at else needed
    ensures dst[..to + copied] == old(dst[..to]) + src[at..at + copied]
    ensures dst[to + copied..] == old(dst[to + copied..])
  {
    copied := if len - at < needed then len - at else needed;
    forall k | 0 <= k < copied {
      dst[to + k] := src[at + k];
    }
  }
}
