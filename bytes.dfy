/**
 * The raw record buffer: bytes, 16-bit wide characters and the
 * little-endian typed stores (`*(ULONG*)p = v`, `*(int*)p = v`,
 * `*(WCHAR*)p = c`) the record code performs on it.
 */
module Bytes {

  type Byte = b: int | 0 <= b < 256

  /** A WCHAR: one 16-bit UTF-16 code unit. */
  type WChar = c: int | 0 <= c < 0x1_0000

  /** The NUL terminator of a wide string. */
  const NUL: WChar := 0

  const U32_MOD: int := 0x1_0000_0000

  /** A C wide string: the characters before its terminator. */
  predicate NoNul(s: seq<WChar>) {
    forall i :: 0 <= i < |s| ==> s[i] != NUL
  }

  /** Bytes of a 32-bit store of `x`, truncated to 32 bits, low byte first. */
  function U32LE(x: int): (r: seq<Byte>)
    ensures |r| == 4
  {
    var v := x % U32_MOD;
    var q1 := v / 256;
    var q2 := q1 / 256;
    [v % 256, q1 % 256, q2 % 256, q2 / 256]
  }

  /** The unsigned value of a 4-byte little-endian field. */
  function DecodeU32(s: seq<Byte>): (v: int)
    requires |s| == 4
    ensures 0 <= v < U32_MOD
  {
    s[0] as int + 256 * (s[1] as int + 256 * (s[2] as int + 256 * (s[3] as int)))
  }

  /** A 32-bit store followed by a 32-bit load gives the value modulo 2^32. */
  lemma U32RoundTrip(x: int)
    ensures DecodeU32(U32LE(x)) == x % U32_MOD
  {
    var v := x % U32_MOD;
    var q1 := v / 256;
    var q2 := q1 / 256;
    assert v == v % 256 + 256 * q1;
    assert q1 == q1 % 256 + 256 * q2;
    assert q2 == q2 % 256 + 256 * (q2 / 256);
  }

  /** The two bytes of a WCHAR store. */
  function WCharLE(c: WChar): (r: seq<Byte>) {
    [c % 256, c / 256]
  }

  /** The bytes of the wide characters `s`, two per character, low byte first. */
  function EncodeW(s: seq<WChar>): (r: seq<Byte>)
    ensures |r| == 2 * |s|
    ensures forall i :: 0 <= i < |s| ==> r[2 * i..2 * i + 2] == WCharLE(s[i])
  {
    if s == [] then [] else WCharLE(s[0]) + EncodeW(s[1..])
  }

  /** Encoding distributes over concatenation. */
  lemma {:induction false} EncodeWAppend(a: seq<WChar>, b: seq<WChar>)
    ensures EncodeW(a + b) == EncodeW(a) + EncodeW(b)
  {
    if a == [] {
      assert a + b == b;
    } else {
      assert (a + b)[0] == a[0];
      assert (a + b)[1..] == a[1..] + b;
      EncodeWAppend(a[1..], b);
    }
  }

  /** A buffer of `n` zero bytes, as left by `memset(p, 0, n)`. */
  function Zeros(n: nat): (r: seq<Byte>)
    ensures |r| == n && forall p :: 0 <= p < n ==> r[p] == 0
  {
    seq(n, _ => 0)
  }

  /** `img` after `bytes` are stored at offset `off`. */
  function Splice(img: seq<Byte>, off: nat, bytes: seq<Byte>): (r: seq<Byte>)
    requires off + |bytes| <= |img|
    ensures |r| == |img|
    ensures r[off..off + |bytes|] == bytes
    ensures forall p :: 0 <= p < |img| && !(off <= p < off + |bytes|) ==> r[p] == img[p]
  {
    img[..off] + bytes + img[off + |bytes|..]
  }

  /** A store leaves every range it does not reach as it was. */
  lemma SpliceKeepsRange(img: seq<Byte>, off: nat, bytes: seq<Byte>, lo: nat, hi: nat)
    requires off + |bytes| <= |img| && lo <= hi <= |img|
    requires hi <= off || off + |bytes| <= lo
    ensures Splice(img, off, bytes)[lo..hi] == img[lo..hi]
  {
    var r := Splice(img, off, bytes);
    assert forall p :: lo <= p < hi ==> r[p] == img[p];
    assert r[lo..hi] == img[lo..hi];
  }

  /** Two buffers that agree on a range have equal slices there. */
  lemma RangeAgrees(x: seq<Byte>, y: seq<Byte>, lo: nat, hi: nat)
    requires lo <= hi <= |x| == |y|
    requires forall p :: lo <= p < hi ==> x[p] == y[p]
    ensures x[lo..hi] == y[lo..hi]
  {
  }

  /** A store keeps two buffers that agree at `p` in agreement there. */
  lemma SpliceAgrees(x: seq<Byte>, y: seq<Byte>, off: nat, bytes: seq<Byte>, p: nat)
    requires off + |bytes| <= |x| == |y| && p < |x| && x[p] == y[p]
    ensures Splice(x, off, bytes)[p] == Splice(y, off, bytes)[p]
  {
    if off <= p < off + |bytes| {
      assert Splice(x, off, bytes)[p] == Splice(x, off, bytes)[off..off + |bytes|][p - off];
      assert Splice(y, off, bytes)[p] == Splice(y, off, bytes)[off..off + |bytes|][p - off];
    }
  }

  /** Two stores to adjacent ranges are one store of the concatenation. */
  lemma SpliceAdjacent(img: seq<Byte>, off: nat, x: seq<Byte>, y: seq<Byte>)
    requires off + |x| + |y| <= |img|
    ensures Splice(Splice(img, off, x), off + |x|, y) == Splice(img, off, x + y)
  {
  }

  /** Two stores to disjoint ranges can be done in either order. */
  lemma SpliceCommute(img: seq<Byte>, o1: nat, x: seq<Byte>, o2: nat, y: seq<Byte>)
    requires o1 + |x| <= |img| && o2 + |y| <= |img|
    requires o1 + |x| <= o2 || o2 + |y| <= o1
    ensures Splice(Splice(img, o1, x), o2, y) == Splice(Splice(img, o2, y), o1, x)
  {
    var l := Splice(Splice(img, o1, x), o2, y);
    var r := Splice(Splice(img, o2, y), o1, x);
    forall p | 0 <= p < |img| ensures l[p] == r[p] {
      if o1 <= p < o1 + |x| {
        assert r[p] == r[o1..o1 + |x|][p - o1];
        assert Splice(img, o1, x)[p] == Splice(img, o1, x)[o1..o1 + |x|][p - o1];
      } else if o2 <= p < o2 + |y| {
        assert l[p] == l[o2..o2 + |y|][p - o2];
        assert Splice(img, o2, y)[p] == Splice(img, o2, y)[o2..o2 + |y|][p - o2];
      }
    }
  }

  /** Stores `bytes` into `data` at offset `off`, one byte at a time. */
  method WriteBytes(data: array<Byte>, off: nat, bytes: seq<Byte>)
    requires off + |bytes| <= data.Length
    modifies data
    ensures data[..] == Splice(old(data[..]), off, bytes)
  {
    var i := 0;
    while i < |bytes|
      invariant 0 <= i <= |bytes|
      invariant forall p :: 0 <= p < data.Length && !(off <= p < off + i) ==> data[p] == old(data[p])
      invariant forall k :: 0 <= k < i ==> data[off + k] == bytes[k]
    {
      data[off + i] := bytes[i];
      i := i + 1;
    }
    assert data[..] == Splice(old(data[..]), off, bytes) by {
      var r := Splice(old(data[..]), off, bytes);
      forall p | 0 <= p < data.Length ensures data[p] == r[p] {
        if off <= p < off + |bytes| {
          assert r[p] == r[off..off + |bytes|][p - off];
        }
      }
    }
  }
}
