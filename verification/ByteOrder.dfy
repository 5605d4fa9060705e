/**
 Byte strings under the order Badger keeps its keys in (the order of Go's `bytes.Compare`), and the
 fixed-width big-endian encoding of block numbers.
 */
module ByteOrder {

  type Byte = x: int | 0 <= x < 256
  type Bytes = seq<Byte>

  const MAX_U64: int := 0xFFFF_FFFF_FFFF_FFFF

  type U64 = x: int | 0 <= x <= MAX_U64

  /** `bytes.Compare(a, b) == -1`: the first differing byte decides, and a proper prefix comes first. */
  predicate Less(a: Bytes, b: Bytes) {
    |b| > 0 && (|a| == 0 || a[0] < b[0] || (a[0] == b[0] && Less(a[1..], b[1..])))
  }

  lemma {:induction false} LessIrreflexive(a: Bytes)
    ensures !Less(a, a)
  {
    if |a| > 0 {
      LessIrreflexive(a[1..]);
    }
  }

  lemma {:induction false} LessTransitive(a: Bytes, b: Bytes, c: Bytes)
    requires Less(a, b) && Less(b, c)
    ensures Less(a, c)
  {
    if |a| > 0 && a[0] == b[0] == c[0] {
      LessTransitive(a[1..], b[1..], c[1..]);
    }
  }

  lemma {:induction false} LessTotal(a: Bytes, b: Bytes)
    ensures Less(a, b) || a == b || Less(b, a)
  {
    if |a| > 0 && |b| > 0 && a[0] == b[0] {
      LessTotal(a[1..], b[1..]);
      assert a == [a[0]] + a[1..] && b == [b[0]] + b[1..];
    }
  }

  lemma LessAsymmetric(a: Bytes, b: Bytes)
    requires Less(a, b)
    ensures !Less(b, a) && a != b
  {
    LessIrreflexive(a);
    if Less(b, a) {
      LessTransitive(a, b, a);
    }
  }

  /** Chaining through a non-strict step, the form the seeks need. */
  lemma LessMixed(a: Bytes, b: Bytes, c: Bytes)
    requires (Less(a, b) && !Less(c, b)) || (!Less(b, a) && Less(b, c))
    ensures Less(a, c)
  {
    LessTotal(a, b);
    LessTotal(b, c);
    if Less(a, b) && Less(b, c) {
      LessTransitive(a, b, c);
    }
  }

  /** A common prefix never decides a comparison. */
  lemma {:induction false} LessAfterPrefix(p: Bytes, x: Bytes, y: Bytes)
    ensures Less(p + x, p + y) <==> Less(x, y)
  {
    if |p| == 0 {
      assert p + x == x && p + y == y;
    } else {
      assert (p + x)[1..] == p[1..] + x && (p + y)[1..] == p[1..] + y;
      LessAfterPrefix(p[1..], x, y);
    }
  }

  /** Two strings neither of which is a prefix of the other are ordered by themselves, whatever follows them. */
  lemma {:induction false} LessDiverging(a: Bytes, b: Bytes, x: Bytes, y: Bytes)
    requires !(a <= b) && !(b <= a)
    ensures Less(a + x, b + y) <==> Less(a, b)
  {
    if a[0] == b[0] {
      assert a == [a[0]] + a[1..] && b == [b[0]] + b[1..];
      assert (a + x)[1..] == a[1..] + x && (b + y)[1..] == b[1..] + y;
      LessDiverging(a[1..], b[1..], x, y);
    }
  }

  /** Whatever sorts between two extensions of `p` extends `p` itself. */
  lemma {:induction false} BetweenExtensions(p: Bytes, x: Bytes, y: Bytes, c: Bytes)
    requires !Less(c, p + x) && !Less(p + y, c)
    ensures p <= c
  {
    if |p| > 0 {
      assert (p + x)[0] == p[0] && (p + y)[0] == p[0];
      assert (p + x)[1..] == p[1..] + x && (p + y)[1..] == p[1..] + y;
      assert |c| > 0;
      BetweenExtensions(p[1..], x, y, c[1..]);
      assert c == [c[0]] + c[1..] && p == [p[0]] + p[1..];
    }
  }

  /** A prefix never sorts after what it is a prefix of. */
  lemma PrefixNotAfter(p: Bytes, c: Bytes)
    requires p <= c
    ensures !Less(c, p)
  {
    assert c == p + c[|p|..] && p == p + [];
    LessAfterPrefix(p, c[|p|..], []);
  }

  /** Of two prefixes of one string, the shorter is a prefix of the longer. */
  lemma PrefixesNest(p: Bytes, q: Bytes, c: Bytes)
    requires p <= c && q <= c && |p| <= |q|
    ensures p <= q
  {
    assert p == c[..|p|] == q[..|p|];
  }

  /** Equal-length strings with one more byte each: the earlier bytes decide first. */
  lemma {:induction false} LessSnoc(s: Bytes, t: Bytes, x: Byte, y: Byte)
    requires |s| == |t|
    ensures Less(s + [x], t + [y]) <==> Less(s, t) || (s == t && x < y)
  {
    if s == t {
      LessAfterPrefix(s, [x], [y]);
      LessIrreflexive(s);
    } else {
      LessDiverging(s, t, [x], [y]);
    }
  }

  // ---- Big-endian numbers ----

  function Pow256(n: nat): (p: nat)
    ensures p > 0
  {
    if n == 0 then 1 else 256 * Pow256(n - 1)
  }

  /** The low `n` bytes of `v`, most significant first. */
  function BigEndian(v: nat, n: nat): (s: Bytes)
    ensures |s| == n
  {
    if n == 0 then [] else BigEndian(v / 256, n - 1) + [v % 256]
  }

  function FromBigEndian(s: Bytes): (v: nat)
    ensures v < Pow256(|s|)
  {
    if |s| == 0 then 0 else FromBigEndian(s[..|s| - 1]) * 256 + s[|s| - 1]
  }

  lemma {:induction false} DecodeEncode(v: nat, n: nat)
    requires v < Pow256(n)
    ensures FromBigEndian(BigEndian(v, n)) == v
  {
    if n > 0 {
      DecodeEncode(v / 256, n - 1);
      assert BigEndian(v, n)[..n - 1] == BigEndian(v / 256, n - 1);
    }
  }

  lemma {:induction false} EncodeDecode(s: Bytes)
    ensures BigEndian(FromBigEndian(s), |s|) == s
  {
    if |s| > 0 {
      EncodeDecode(s[..|s| - 1]);
      assert s == s[..|s| - 1] + [s[|s| - 1]];
    }
  }

  /** Byte order on equal-width encodings is numeric order. */
  lemma {:induction false} BigEndianOrder(v: nat, w: nat, n: nat)
    requires v < Pow256(n) && w < Pow256(n)
    ensures Less(BigEndian(v, n), BigEndian(w, n)) <==> v < w
  {
    if n > 0 {
      BigEndianOrder(v / 256, w / 256, n - 1);
      LessSnoc(BigEndian(v / 256, n - 1), BigEndian(w / 256, n - 1), v % 256, w % 256);
      DecodeEncode(v / 256, n - 1);
      DecodeEncode(w / 256, n - 1);
    }
  }

  lemma EightBytesHoldU64()
    ensures Pow256(8) == MAX_U64 + 1
  {
    assert Pow256(4) == 0x1_0000_0000;
    assert Pow256(8) == 256 * 256 * 256 * 256 * Pow256(4);
  }

  /** The eight bytes of a block number. */
  function EncodeU64(v: U64): (s: Bytes)
    ensures |s| == 8
  {
    BigEndian(v, 8)
  }

  /** `binary.BigEndian.Uint64` of an eight-byte string. */
  function DecodeU64(s: Bytes): U64
    requires |s| == 8
  {
    EightBytesHoldU64();
    FromBigEndian(s)
  }

  lemma U64RoundTrip(v: U64)
    ensures DecodeU64(EncodeU64(v)) == v
  {
    EightBytesHoldU64();
    DecodeEncode(v, 8);
  }

  lemma U64Onto(s: Bytes)
    requires |s| == 8
    ensures EncodeU64(DecodeU64(s)) == s
  {
    EncodeDecode(s);
  }

  lemma U64Order(v: U64, w: U64)
    ensures Less(EncodeU64(v), EncodeU64(w)) <==> v < w
  {
    EightBytesHoldU64();
    BigEndianOrder(v, w, 8);
  }

  lemma {:induction false} Repeated(n: nat)
    ensures BigEndian(0, n) == seq(n, i => 0)
    ensures BigEndian(Pow256(n) - 1, n) == seq(n, i => 255)
  {
    if n > 0 {
      Repeated(n - 1);
      assert (Pow256(n) - 1) / 256 == Pow256(n - 1) - 1 && (Pow256(n) - 1) % 256 == 255;
    }
  }

  /** The least and the greatest block stamp are eight zero bytes and eight `FF` bytes. */
  lemma EncodeExtremes()
    ensures EncodeU64(0) == [0, 0, 0, 0, 0, 0, 0, 0]
    ensures EncodeU64(MAX_U64) == [255, 255, 255, 255, 255, 255, 255, 255]
  {
    EightBytesHoldU64();
    Repeated(8);
  }

  /** `binary.BigEndian.PutUint64`: eight bytes written in place, from the least significant up. */
  method PutUint64(buffer: array<Byte>, offset: nat, v: U64)
    requires offset + 8 <= buffer.Length
    modifies buffer
    ensures buffer[..] == old(buffer[..offset]) + EncodeU64(v) + old(buffer[offset + 8..])
  {
    var rest: nat := v;
    var i := 8;
    while i > 0
      invariant 0 <= i <= 8
      invariant buffer[..offset + i] == old(buffer[..offset + i])
      invariant buffer[offset + 8..] == old(buffer[offset + 8..])
      invariant BigEndian(rest, i) + buffer[offset + i..offset + 8] == EncodeU64(v)
    {
      i := i - 1;
      ghost var written := buffer[offset + i + 1..offset + 8];
      buffer[offset + i] := rest % 256;
      rest := rest / 256;
      assert buffer[offset + i..offset + 8] == [buffer[offset + i]] + written;
      assert buffer[..offset + i] == old(buffer[..offset + i + 1])[..offset + i];
    }
    assert buffer[offset..offset + 8] == EncodeU64(v);
    assert buffer[..] == buffer[..offset] + buffer[offset..offset + 8] + buffer[offset + 8..];
  }
}
