/** Byte-level layer of the primitive codec: the C integer widths the
    connection object stores and sends, and the big-endian layout of
    multi-byte integers on the wire (a byte swap followed by a
    little-endian store, which together put the most significant byte
    first). */
module Wire {

  /** An unsigned char / uint8_t. */
  newtype byte = b: int | 0 <= b < 0x100

  function Pow2(n: nat): (r: nat)
    ensures r >= 1
  {
    if n == 0 then 1 else 2 * Pow2(n - 1)
  }

  /** Bitwise exclusive or of the low n bits of a and b, one bit at a time. */
  function XorBits(a: nat, b: nat, n: nat): (r: nat)
    ensures r < Pow2(n)
  {
    if n == 0 then 0
    else (if a % 2 == b % 2 then 0 else 1) + 2 * XorBits(a / 2, b / 2, n - 1)
  }

  /** XOR with zero keeps every bit, and XOR of equal operands clears
      every bit. */
  lemma {:induction false} XorBitsUnits(a: nat, n: nat)
    requires a < Pow2(n)
    ensures XorBits(a, 0, n) == a && XorBits(a, a, n) == 0
  {
    if n > 0 {
      XorBitsUnits(a / 2, n - 1);
    }
  }

  /** The C operator ^ on two bytes: a zero key byte leaves the data byte
      as it is, and a byte equal to the data byte clears it. */
  function Xor(a: byte, b: byte): (r: byte)
    ensures b == 0 ==> r == a
    ensures b == a ==> r == 0
  {
    assert Pow2(8) == 0x100;
    XorBitsUnits(a as nat, 8);
    XorBits(a as nat, b as nat, 8) as byte
  }

  predicate IsInt8(v: int) { -0x80 <= v < 0x80 }
  predicate IsInt16(v: int) { -0x8000 <= v < 0x8000 }
  predicate IsInt32(v: int) { -0x8000_0000 <= v < 0x8000_0000 }

  /** Conversion to int8_t: the low 8 bits, read as two's complement. */
  function Int8(v: int): (r: int)
    ensures IsInt8(r) && (v - r) % 0x100 == 0
  {
    var u := v % 0x100;
    if u >= 0x80 then u - 0x100 else u
  }

  /** Conversion to int16_t: the low 16 bits, read as two's complement. */
  function Int16(v: int): (r: int)
    ensures IsInt16(r) && (v - r) % 0x1_0000 == 0
  {
    var u := v % 0x1_0000;
    if u >= 0x8000 then u - 0x1_0000 else u
  }

  /** Conversion to int32_t: the low 32 bits, read as two's complement. */
  function Int32(v: int): (r: int)
    ensures IsInt32(r) && (v - r) % 0x1_0000_0000 == 0
  {
    var u := v % 0x1_0000_0000;
    if u >= 0x8000_0000 then u - 0x1_0000_0000 else u
  }

  /** The byte a value is stored as when it goes through an 8-bit type. */
  function ByteOf(v: int): (b: byte)
    ensures (v - b as int) % 0x100 == 0
  {
    (v % 0x100) as byte
  }

  /** write_short: the low 16 bits, most significant byte first. */
  function EncodeShort(v: int): (r: seq<byte>)
    ensures |r| == 2
  {
    var u := v % 0x1_0000;
    [ByteOf(u / 0x100), ByteOf(u)]
  }

  /** read_ushort: two bytes, most significant first, as an unsigned value. */
  function DecodeUShort(b: seq<byte>): (r: int)
    requires |b| == 2
    ensures 0 <= r < 0x1_0000
  {
    b[0] as int * 0x100 + b[1] as int
  }

  /** read_short: the unsigned value reinterpreted as an int16_t. */
  function DecodeShort(b: seq<byte>): (r: int)
    requires |b| == 2
    ensures IsInt16(r)
  {
    var u := DecodeUShort(b);
    if u >= 0x8000 then u - 0x1_0000 else u
  }

  /** write_int: the low 32 bits, most significant byte first, that is
      the high 16-bit half and then the low half, each as write_short
      lays it out. */
  function EncodeInt(v: int): (r: seq<byte>)
    ensures |r| == 4
  {
    var u := v % 0x1_0000_0000;
    EncodeShort(u / 0x1_0000) + EncodeShort(u % 0x1_0000)
  }

  /** The four bytes of read_int, most significant first, as an unsigned value. */
  function DecodeUInt(b: seq<byte>): (r: int)
    requires |b| == 4
    ensures 0 <= r < 0x1_0000_0000
  {
    DecodeUShort(b[..2]) * 0x1_0000 + DecodeUShort(b[2..])
  }

  /** read_int: the unsigned value reinterpreted as an int32_t. */
  function DecodeInt(b: seq<byte>): (r: int)
    requires |b| == 4
    ensures IsInt32(r)
  {
    Int32(DecodeUInt(b))
  }

  /** memcpy of `data` into `buf` at offset `at`, after growing `buf` to
      fit when it is too short (as the callers' resize does): the bytes
      land at [at, at + |data|), the bytes before `at` and the bytes of
      the old buffer past the copy are kept, and the buffer never
      shrinks. */
  function Overwrite(buf: seq<byte>, at: int, data: seq<byte>): (r: seq<byte>)
    requires 0 <= at <= |buf|
    ensures |r| == if at + |data| > |buf| then at + |data| else |buf|
  {
    buf[..at] + data + if at + |data| < |buf| then buf[at + |data|..] else []
  }

  /** What Overwrite keeps and what it replaces, byte by byte. */
  lemma OverwriteFacts(buf: seq<byte>, at: int, data: seq<byte>)
    requires 0 <= at <= |buf|
    ensures var r := Overwrite(buf, at, data);
      && (forall k :: 0 <= k < at ==> r[k] == buf[k])
      && (forall k :: 0 <= k < |data| ==> r[at + k] == data[k])
      && (forall k :: at + |data| <= k < |buf| ==> r[k] == buf[k])
  {
  }

  /** Data that fits inside the buffer replaces exactly its own range. */
  lemma OverwriteInside(buf: seq<byte>, at: nat, data: seq<byte>)
    requires at + |data| <= |buf|
    ensures var r := Overwrite(buf, at, data);
      && |r| == |buf| && r[at..at + |data|] == data
      && r[..at] == buf[..at] && r[at + |data|..] == buf[at + |data|..]
  {
    var r := Overwrite(buf, at, data);
    OverwriteFacts(buf, at, data);
    assert r[at..at + |data|] == data;
    assert r[..at] == buf[..at];
    assert r[at + |data|..] == buf[at + |data|..];
  }

  /** The compaction of has_packet: the n bytes at offset `from` are
      moved to the front and the bytes past the first n are left as they
      were; nothing moves when n is not positive. The result is that of a
      memmove: the copy in the source may overlap, which a plain memcpy
      leaves undefined. */
  function Compact(buf: seq<byte>, from: int, n: int): (r: seq<byte>)
    requires 0 <= from && from + n <= |buf|
    ensures |r| == |buf|
    ensures n > 0 ==> r[..n] == buf[from..from + n]
    ensures n > 0 ==> r[n..] == buf[n..]
    ensures n <= 0 ==> r == buf
  {
    if n <= 0 then buf else buf[from..from + n] + buf[n..]
  }

  /** Copying in the bytes already there changes nothing. */
  lemma OverwriteSelf(buf: seq<byte>, at: int, n: int)
    requires 0 <= at && 0 <= n && at + n <= |buf|
    ensures Overwrite(buf, at, buf[at..at + n]) == buf
  {
    var r := Overwrite(buf, at, buf[at..at + n]);
    forall k | 0 <= k < |buf| ensures r[k] == buf[k] {
      if k < at {
        assert r[k] == r[..at][k];
      } else if k < at + n {
        assert r[k] == r[at..at + n][k - at];
      }
    }
  }

  /** Two copies end to end are one copy of both. */
  lemma OverwriteConcat(buf: seq<byte>, at: int, d1: seq<byte>, d2: seq<byte>)
    requires 0 <= at <= |buf|
    ensures Overwrite(Overwrite(buf, at, d1), at + |d1|, d2) == Overwrite(buf, at, d1 + d2)
  {
    var b1 := Overwrite(buf, at, d1);
    var l, r := Overwrite(b1, at + |d1|, d2), Overwrite(buf, at, d1 + d2);
    assert |l| == |r|;
    forall k | 0 <= k < |l| ensures l[k] == r[k] {
      if k < at {
        assert l[k] == l[..at + |d1|][k] == b1[..at + |d1|][k] == b1[..at][k];
        assert r[k] == r[..at][k];
      } else if k < at + |d1| {
        assert l[k] == l[..at + |d1|][k] == b1[..at + |d1|][k] == b1[at..at + |d1|][k - at];
        assert r[k] == r[at..at + |d1| + |d2|][k - at];
      } else if k < at + |d1| + |d2| {
        assert l[k] == l[at + |d1|..at + |d1| + |d2|][k - at - |d1|];
        assert r[k] == r[at..at + |d1| + |d2|][k - at];
      } else {
        assert l[k] == b1[k] == buf[k];
      }
    }
  }

  // ---------------------------------------------------------------------
  // Round trips between the writers and the readers

  lemma {:induction false} XorBitsInvolution(a: nat, k: nat, n: nat)
    requires a < Pow2(n)
    ensures XorBits(XorBits(a, k, n), k, n) == a
  {
    if n > 0 {
      var bit := if a % 2 == k % 2 then 0 else 1;
      var rest := XorBits(a / 2, k / 2, n - 1);
      var x := XorBits(a, k, n);
      assert x == bit + 2 * rest;
      assert x % 2 == bit && x / 2 == rest;
      XorBitsInvolution(a / 2, k / 2, n - 1);
      assert a == a % 2 + 2 * (a / 2);
    }
  }

  /** XOR with the same byte twice gives back the original byte. */
  lemma XorInvolution(a: byte, k: byte)
    ensures Xor(Xor(a, k), k) == a
  {
    assert Pow2(8) == 0x100;
    XorBitsInvolution(a as nat, k as nat, 8);
  }

  lemma Int16Identity(v: int)
    requires IsInt16(v)
    ensures Int16(v) == v
  {
  }

  /** Splitting a 16-bit value into its two bytes loses nothing. */
  lemma SplitShort(u: int)
    requires 0 <= u < 0x1_0000
    ensures ByteOf(u / 0x100) as int == u / 0x100
    ensures ByteOf(u) as int == u % 0x100
    ensures (u / 0x100) * 0x100 + u % 0x100 == u
  {
  }

  /** read_ushort undoes write_short modulo 2^16, and read_short returns
      the value write_short was given, truncated to int16_t. */
  lemma ShortRoundTrip(v: int)
    ensures DecodeUShort(EncodeShort(v)) == v % 0x1_0000
    ensures DecodeShort(EncodeShort(v)) == Int16(v)
  {
    var u := v % 0x1_0000;
    SplitShort(u);
    assert DecodeUShort(EncodeShort(v)) == u;
  }

  /** Every two bytes on the wire are the encoding of the value read from them. */
  lemma ShortBytesRoundTrip(b: seq<byte>)
    requires |b| == 2
    ensures EncodeShort(DecodeShort(b)) == b
    ensures EncodeShort(DecodeUShort(b)) == b
  {
    var u := DecodeUShort(b);
    assert u / 0x100 == b[0] as int && u % 0x100 == b[1] as int;
    var s := DecodeShort(b);
    assert s % 0x1_0000 == u;
  }

  /** A 32-bit value is its high half times 2^16 plus its low half. */
  lemma SplitInt(hi: int, lo: int)
    requires 0 <= hi < 0x1_0000 && 0 <= lo < 0x1_0000
    ensures 0 <= hi * 0x1_0000 + lo < 0x1_0000_0000
    ensures (hi * 0x1_0000 + lo) / 0x1_0000 == hi
    ensures (hi * 0x1_0000 + lo) % 0x1_0000 == lo
  {
  }

  /** write_int of a value given by its halves writes each half as write_short does. */
  lemma EncodeHalves(hi: int, lo: int)
    requires 0 <= hi < 0x1_0000 && 0 <= lo < 0x1_0000
    ensures EncodeInt(hi * 0x1_0000 + lo) == EncodeShort(hi) + EncodeShort(lo)
  {
    SplitInt(hi, lo);
    var u := hi * 0x1_0000 + lo;
    assert u % 0x1_0000_0000 == u;
  }

  /** int32_t truncation keeps the value modulo 2^32. */
  lemma Int32Low(v: int)
    ensures Int32(v) % 0x1_0000_0000 == v % 0x1_0000_0000
  {
    var u := v % 0x1_0000_0000;
    if u >= 0x8000_0000 {
      assert Int32(v) == u - 0x1_0000_0000;
      assert (u - 0x1_0000_0000) % 0x1_0000_0000 == u;
    } else {
      assert Int32(v) == u;
    }
  }

  /** Values equal modulo 2^32 are written as the same four bytes. */
  lemma EncodeIntMod(v: int, w: int)
    requires v % 0x1_0000_0000 == w % 0x1_0000_0000
    ensures EncodeInt(v) == EncodeInt(w)
  {
  }

  /** int32_t truncation only sees the value modulo 2^32. */
  lemma Int32Mod(v: int)
    ensures Int32(v % 0x1_0000_0000) == Int32(v)
  {
    var u := v % 0x1_0000_0000;
    assert u % 0x1_0000_0000 == u;
  }

  /** read_int returns the value write_int was given, truncated to int32_t. */
  lemma IntRoundTrip(v: int)
    ensures DecodeUInt(EncodeInt(v)) == v % 0x1_0000_0000
    ensures DecodeInt(EncodeInt(v)) == Int32(v)
  {
    var u := v % 0x1_0000_0000;
    var hi, lo := u / 0x1_0000, u % 0x1_0000;
    var e := EncodeShort(hi) + EncodeShort(lo);
    assert EncodeInt(v) == e;
    assert e[..2] == EncodeShort(hi) && e[2..] == EncodeShort(lo);
    ShortRoundTrip(hi);
    ShortRoundTrip(lo);
    var dh, dl := DecodeUShort(e[..2]), DecodeUShort(e[2..]);
    assert dh == hi;
    assert dl == lo;
    assert DecodeUInt(e) == dh * 0x1_0000 + dl == u;
    Int32Mod(v);
  }

  /** Every four bytes on the wire are the encoding of the int read from them. */
  lemma IntBytesRoundTrip(b: seq<byte>)
    requires |b| == 4
    ensures EncodeInt(DecodeUInt(b)) == b
    ensures EncodeInt(DecodeInt(b)) == b
  {
    var hi, lo := DecodeUShort(b[..2]), DecodeUShort(b[2..]);
    var u := DecodeUInt(b);
    EncodeHalves(hi, lo);
    ShortBytesRoundTrip(b[..2]);
    ShortBytesRoundTrip(b[2..]);
    assert b[..2] + b[2..] == b;
    Int32Low(u);
    EncodeIntMod(DecodeInt(b), u);
  }

  /** read_byte returns the value write_byte was given, as an int8_t. */
  lemma ByteRoundTrip(v: int)
    ensures Int8(ByteOf(v) as int) == Int8(v)
    ensures ByteOf(Int8(v)) == ByteOf(v)
  {
  }
}
