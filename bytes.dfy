/**
 * Byte-level helpers shared by both packet codecs: the failure-compatible
 * wrappers, the big-endian integer encoding written by `bit(width, value)`,
 * the zero run written by `empty(n)`, and the big-endian reads of Node's
 * `Buffer.readUIntNBE`.
 */
module Bytes {

  /** One element of a Node `Buffer`. */
  type Byte = x: int | 0 <= x < 256

  datatype Option<+T> = None | Some(value: T) {
    function GetOr(default: T): T {
      match this
      case Some(v) => v
      case None => default
    }
  }

  datatype Result<+R, +E> = Success(value: R) | Failure(error: E)

  /** 256 to the power k: the number of values k bytes can hold. */
  function Pow256(k: nat): (r: nat)
    ensures r >= 1
  {
    if k == 0 then 1 else 256 * Pow256(k - 1)
  }

  /** `Buffer.from(number[])` keeps the low 8 bits of every element. */
  function LowByte(v: int): (r: Byte)
    ensures (v - r) % 256 == 0
  {
    v % 256
  }

  /**
   * The k-byte big-endian encoding of v, most significant byte first.
   * Values that do not fit keep their low 8k bits, as the 8-bit masking of
   * `Buffer.from` does to every element.
   */
  function BigEndian(k: nat, v: nat): (r: seq<Byte>)
    ensures |r| == k
  {
    if k == 0 then [] else BigEndian(k - 1, v / 256) + [v % 256]
  }

  /** `bit(width, value)`: the value in width/8 big-endian bytes. */
  function Bit(width: nat, v: nat): (r: seq<Byte>)
    requires width % 8 == 0
    ensures |r| == width / 8
  {
    BigEndian(width / 8, v)
  }

  /** `empty(n)`: n zero bytes. */
  function Zeros(n: nat): (r: seq<Byte>)
    ensures |r| == n
    ensures forall i :: 0 <= i < n ==> r[i] == 0
  {
    seq(n, _ => 0)
  }

  /** The unsigned big-endian integer held in s (`readUInt8/16/32BE`). */
  function ReadBE(s: seq<Byte>): (r: nat)
    ensures r < Pow256(|s|)
  {
    if s == [] then 0 else ReadBE(s[..|s| - 1]) * 256 + s[|s| - 1]
  }

  /** The big-endian field of width bytes at offset in buf. */
  function Field(buf: seq<Byte>, offset: nat, width: nat): (r: nat)
    requires offset + width <= |buf|
    ensures r < Pow256(width)
  {
    ReadBE(buf[offset..offset + width])
  }

  lemma {:induction false} DivModStep(v: nat, m: nat)
    requires m >= 1
    ensures (v / 256) % m * 256 + v % 256 == v % (256 * m)
  {
    var q, r := v / 256, v % 256;
    var a, b := q / m, q % m;
    assert v == 256 * q + r;
    assert q == m * a + b;
    assert v == (256 * m) * a + (256 * b + r) by {
      calc {
        v;
        256 * q + r;
        256 * (m * a + b) + r;
        (256 * m) * a + (256 * b + r);
      }
    }
    assert 0 <= 256 * b + r < 256 * m;
    LemmaModUnique(v, 256 * m, a, 256 * b + r);
  }

  lemma {:induction false} LemmaModUnique(v: int, d: int, a: int, r: int)
    requires d > 0 && 0 <= r < d && v == d * a + r
    ensures v % d == r
  {
    var q := v / d;
    assert v == d * q + v % d;
    if a > q {
      assert d * a - d * q == d * (a - q);
      MulAtLeast(d, a - q);
    } else if a < q {
      assert d * q - d * a == d * (q - a);
      MulAtLeast(d, q - a);
    }
  }

  lemma {:induction false} MulAtLeast(d: int, x: int)
    requires d > 0 && x >= 1
    ensures d * x >= d
  {
    if x > 1 {
      MulAtLeast(d, x - 1);
      assert d * x == d * (x - 1) + d;
    }
  }

  /** Reading back a big-endian encoding gives the value modulo 256^k. */
  lemma {:induction false} ReadBigEndian(k: nat, v: nat)
    ensures ReadBE(BigEndian(k, v)) == v % Pow256(k)
  {
    if k > 0 {
      var s := BigEndian(k, v);
      assert s[..k - 1] == BigEndian(k - 1, v / 256);
      ReadBigEndian(k - 1, v / 256);
      DivModStep(v, Pow256(k - 1));
    }
  }

  /** What `bit(width, value)` writes reads back as the value modulo 256^(width/8). */
  lemma BitReadsBack(width: nat, v: nat)
    requires width % 8 == 0
    ensures ReadBE(Bit(width, v)) == v % Pow256(width / 8)
  {
    ReadBigEndian(width / 8, v);
  }

  /** A value that fits in k bytes reads back unchanged. */
  lemma ReadBigEndianFits(k: nat, v: nat)
    requires v < Pow256(k)
    ensures ReadBE(BigEndian(k, v)) == v
  {
    ReadBigEndian(k, v);
  }

  /** Encoding what was read reproduces the bytes. */
  lemma {:induction false} BigEndianOfRead(s: seq<Byte>)
    ensures BigEndian(|s|, ReadBE(s)) == s
  {
    if s != [] {
      var init, last := s[..|s| - 1], s[|s| - 1];
      BigEndianOfRead(init);
      DivModByte(ReadBE(init), last);
      assert s == init + [last];
    }
  }

  lemma DivModByte(x: nat, b: Byte)
    ensures (x * 256 + b) / 256 == x && (x * 256 + b) % 256 == b
  {
    var v := x * 256 + b;
    LemmaModUnique(v, 256, x, b);
    assert v == 256 * (v / 256) + v % 256;
  }

  /** A slice splits at any point between its ends. */
  lemma SliceSplit<T>(s: seq<T>, i: nat, j: nat, k: nat)
    requires i <= j <= k <= |s|
    ensures s[i..k] == s[i..j] + s[j..k]
  {
  }

  /** Two adjacent slices, each equal to a piece, join into the slice spanning both. */
  lemma AppendSlice(buf: seq<Byte>, i: nat, j: nat, k: nat, x: seq<Byte>, y: seq<Byte>)
    requires i <= j <= k <= |buf| && x == buf[i..j] && y == buf[j..k]
    ensures x + y == buf[i..k]
  {
    SliceSplit(buf, i, j, k);
  }

  /** The two bytes of a 16-bit big-endian encoding. */
  lemma BigEndian16(v: nat)
    ensures BigEndian(2, v) == [(v / 256) % 256, v % 256]
  {
  }

  /** A big-endian field the header wrote reads back modulo its width. */
  lemma FieldOfHeader(w: seq<Byte>, h: seq<Byte>, offset: nat, width: nat, v: nat)
    requires |h| <= |w| && w[..|h|] == h && offset + width <= |h|
    requires h[offset..offset + width] == BigEndian(width, v)
    ensures Field(w, offset, width) == v % Pow256(width)
  {
    assert w[offset..offset + width] == h[offset..offset + width] by {
      forall k | offset <= k < offset + width
        ensures w[k] == h[k]
      {
        assert w[..|h|][k] == w[k];
      }
    }
    ReadBigEndian(width, v);
  }

  /** A one-byte field re-encodes to the byte it was read from. */
  lemma ByteOfRead(buf: seq<Byte>, offset: nat)
    requires offset < |buf|
    ensures Bit(8, buf[offset]) == buf[offset..offset + 1]
  {
    BigEndianOfRead(buf[offset..offset + 1]);
  }

  /** A big-endian field re-encodes to the bytes it was read from. */
  lemma FieldOfRead(buf: seq<Byte>, offset: nat, width: nat)
    requires offset + width <= |buf|
    ensures BigEndian(width, Field(buf, offset, width)) == buf[offset..offset + width]
  {
    BigEndianOfRead(buf[offset..offset + width]);
  }

  /** k is one of the n integers lo .. lo + n - 1. */
  predicate InInterval(k: int, lo: int, n: nat)
  {
    lo <= k < lo + n
  }

  /** The interval lo .. lo + n - 1 holds n integers. */
  lemma {:induction false} IntervalSize(lo: int, n: nat)
    ensures |set k | lo <= k < lo + n && InInterval(k, lo, n)| == n
  {
    if n > 0 {
      var m := n - 1;
      IntervalSize(lo, m);
      assert (set k | lo <= k < lo + n && InInterval(k, lo, n))
        == (set k | lo <= k < lo + m && InInterval(k, lo, m)) + {lo + m};
    }
  }

  /** A 16-bit big-endian field: high byte times 256 plus low byte. */
  lemma Field16(buf: seq<Byte>, offset: nat)
    requires offset + 2 <= |buf|
    ensures Field(buf, offset, 2) == buf[offset] as int * 256 + buf[offset + 1]
  {
    var s := buf[offset..offset + 2];
    assert s[..1][..0] == [];
    assert ReadBE(s[..1]) == ReadBE(s[..1][..0]) * 256 + s[0];
    assert ReadBE(s) == ReadBE(s[..1]) * 256 + s[1];
  }
}
