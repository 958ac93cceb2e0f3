/** Byte sequences and the fixed-width integers that the programs pack into them. */
module Bytes {

  type byte = b: int | 0 <= b < 256

  datatype Option<+T> = None | Some(value: T)

  /** Result of an operation that may raise an exception in one of the scripts. */
  datatype Outcome<+T, +E> = Ok(value: T) | Err(error: E)

  function Pow256(n: nat): (r: nat)
    ensures r > 0
  {
    if n == 0 then 1 else 256 * Pow256(n - 1)
  }

  /** The n low-order bytes of v, least significant first. */
  function LittleEndian(v: nat, n: nat): (s: seq<byte>)
    ensures |s| == n
  {
    if n == 0 then [] else [v % 256] + LittleEndian(v / 256, n - 1)
  }

  function FromLittleEndian(s: seq<byte>): (v: nat)
  {
    if s == [] then 0 else s[0] + 256 * FromLittleEndian(s[1..])
  }

  function Reverse<T>(s: seq<T>): (r: seq<T>)
    ensures |r| == |s|
    ensures forall i :: 0 <= i < |s| ==> r[i] == s[|s| - 1 - i]
  {
    seq(|s|, i requires 0 <= i < |s| => s[|s| - 1 - i])
  }

  /** The n low-order bytes of v, most significant first. */
  function BigEndian(v: nat, n: nat): (s: seq<byte>)
    ensures |s| == n
  {
    Reverse(LittleEndian(v, n))
  }

  function FromBigEndian(s: seq<byte>): (v: nat)
  {
    FromLittleEndian(Reverse(s))
  }

  function Zeros(n: nat): (s: seq<byte>)
    ensures |s| == n && forall i :: 0 <= i < n ==> s[i] == 0
  {
    seq(n, _ => 0)
  }

  /** Pads with NUL bytes on the right; a longer sequence is returned unchanged. */
  function PadRight(s: seq<byte>, n: nat): (r: seq<byte>)
    ensures |s| <= n ==> |r| == n
    ensures s <= r
  {
    if |s| >= n then s else s + Zeros(n - |s|)
  }

  /** The bytes at off, off+1, ... replaced by data. */
  function Splice<T>(s: seq<T>, off: nat, data: seq<T>): (r: seq<T>)
    requires off + |data| <= |s|
    ensures |r| == |s|
    ensures forall i :: 0 <= i < |s| ==> r[i] == if off <= i < off + |data| then data[i - off] else s[i]
  {
    s[..off] + data + s[off + |data|..]
  }

  /** Unpacking a packed value returns its low-order n bytes. */
  lemma {:induction false} UnpackPack(v: nat, n: nat)
    ensures FromLittleEndian(LittleEndian(v, n)) == v % Pow256(n)
  {
    if n > 0 {
      UnpackPack(v / 256, n - 1);
      assert LittleEndian(v, n)[1..] == LittleEndian(v / 256, n - 1);
      DivModStep(v, Pow256(n - 1));
    }
  }

  lemma {:induction false} DivModStep(v: nat, p: nat)
    requires p > 0
    ensures v % (256 * p) == v % 256 + 256 * (v / 256 % p)
  {
    var q, r := v / 256 / p, v / 256 % p;
    assert v / 256 == q * p + r;
    assert v == 256 * (q * p + r) + v % 256;
    var low := v % 256 + 256 * r;
    assert v == q * (256 * p) + low;
    assert 0 <= low < 256 * p;
    QuotientUnique(v, 256 * p, q, low);
  }

  lemma {:induction false} QuotientUnique(v: int, d: int, q: int, r: int)
    requires d > 0 && v == q * d + r && 0 <= r < d
    ensures v / d == q && v % d == r
  {
    var q', r' := v / d, v % d;
    assert v == q' * d + r';
    assert (q - q') * d == r' - r;
    MultipleAway(q - q', d);
  }

  lemma MultipleAway(k: int, d: int)
    requires d > 0
    ensures k >= 1 ==> k * d >= d
    ensures k <= -1 ==> k * d <= -d
  {
  }

  lemma {:induction false} UnpackBound(s: seq<byte>)
    ensures FromLittleEndian(s) < Pow256(|s|)
  {
    if s != [] {
      UnpackBound(s[1..]);
    }
  }

  lemma Widths()
    ensures Pow256(2) == 0x1_0000 && Pow256(4) == 0x1_0000_0000
    ensures Pow256(8) == 0x1_0000_0000_0000_0000
  {
    assert Pow256(1) == 256;
    assert Pow256(3) == 0x100_0000;
    assert Pow256(5) == 0x100_0000_0000;
    assert Pow256(6) == 0x1_0000_0000_0000;
    assert Pow256(7) == 0x100_0000_0000_0000;
  }

  lemma RoundTrip(v: nat, n: nat)
    requires v < Pow256(n)
    ensures FromLittleEndian(LittleEndian(v, n)) == v
    ensures FromBigEndian(BigEndian(v, n)) == v
  {
    UnpackPack(v, n);
    QuotientUnique(v, Pow256(n), 0, v);
    assert Reverse(Reverse(LittleEndian(v, n))) == LittleEndian(v, n);
  }

  lemma DivTwice(v: nat, p: nat)
    requires p > 0
    ensures v / 256 / p == v / (256 * p)
  {
    DivModStep(v, p);
    var q := v / 256 / p;
    assert v / 256 == q * p + v / 256 % p;
    assert v == q * (256 * p) + (v % 256 + 256 * (v / 256 % p));
    QuotientUnique(v, 256 * p, q, v % 256 + 256 * (v / 256 % p));
  }

  /** Each byte of a packed value is one digit to the base 256, in either order. */
  lemma {:induction false} ByteOf(v: nat, n: nat, i: nat)
    requires i < n
    ensures LittleEndian(v, n)[i] == BigEndian(v, n)[n - 1 - i] == v / Pow256(i) % 256
    decreases i
  {
    if i > 0 {
      ByteOf(v / 256, n - 1, i - 1);
      DivTwice(v, Pow256(i - 1));
    }
  }

  lemma PaddedTail(s: seq<byte>, n: nat)
    requires |s| <= n
    ensures forall i :: |s| <= i < n ==> PadRight(s, n)[i] == 0
  {
  }
}
