/** The connection object: a write buffer that typed writers append to
    and send_packet frames and sends, a read buffer that poll_packets
    fills from the transport and has_packet cuts into packets, typed
    readers over it, and the two cipher states of the optional RC4
    encryption. The transport is a chunk of bytes handed to Poll and a
    log of the chunks handed to put_data. */
module Framing {
  import opened Wire
  import opened Rc4
  import opened Reassembly

  /** read_partial_data: how many of n bytes are read from offset `at`
      of a buffer of `size` bytes. All n when they fit, otherwise what is
      left up to the end of the buffer (the bound is the buffer's size,
      not the number of readable bytes). */
  function Received(size: int, at: int, n: int): (r: int)
    requires 0 <= at <= size && 0 <= n
    ensures 0 <= r <= n && at + r <= size
    ensures r == n <==> at + n <= size
    ensures r < n ==> at + r == size
  {
    if at + n > size then
      var left := size - at;
      if left <= 0 then 0 else left
    else n
  }

  /** The String built from a zero-terminated char buffer: the bytes up
      to, not including, the first zero byte. */
  function UntilZero(s: seq<byte>): (r: seq<byte>)
    ensures |r| <= |s| && r == s[..|r|]
    ensures forall i :: 0 <= i < |r| ==> r[i] != 0
    ensures |r| < |s| ==> s[|r|] == 0
  {
    if s == [] || s[0] == 0 then [] else [s[0]] + UntilZero(s[1..])
  }

  /** What read_string and read_wide_string read from offset `at`, and
      where they leave the reader. */
  datatype Parsed = Parsed(bytes: seq<byte>, next: int)

  /** read_string reads a length prefix as a read_short. With fewer than
      two bytes left it takes what is left and gives nothing. On a
      negative length it stops after the prefix and gives nothing.
      Otherwise it gives the bytes that follow, or, when they do not all
      fit, takes what is left and gives nothing. */
  function StringAt(buf: seq<byte>, at: int): (r: Parsed)
    requires 0 <= at <= |buf|
    ensures at <= r.next <= |buf|
    ensures r.bytes != [] ==> r.next == at + 2 + |r.bytes| && r.bytes == buf[at + 2..r.next]
  {
    if at + 2 > |buf| then Parsed([], |buf|)
    else
      var len := DecodeShort(buf[at..at + 2]);
      if len < 0 then Parsed([], at + 2)
      else if at + 2 + len <= |buf| then Parsed(buf[at + 2..at + 2 + len], at + 2 + len)
      else Parsed([], |buf|)
  }

  /** write_string then read_string at the same offset: a string shorter
      than 0x8000 bytes, the empty one included, comes back whole, with
      the reader right after it. */
  lemma StringRoundTrip(buf0: seq<byte>, at: int, s: seq<byte>)
    requires 0 <= at <= |buf0| && |s| < 0x8000
    ensures StringAt(Overwrite(buf0, at, EncodeShort(|s|) + s), at) == Parsed(s, at + 2 + |s|)
  {
    var buf := Overwrite(buf0, at, EncodeShort(|s|) + s);
    OverwriteFacts(buf0, at, EncodeShort(|s|) + s);
    assert buf[at..at + 2] == EncodeShort(|s|);
    assert buf[at + 2..at + 2 + |s|] == s;
    ShortRoundTrip(|s|);
    Int16Identity(|s|);
  }

  /** A string of 0x8000 to 0xFFFF bytes gets a prefix that reads back
      negative as int16_t: read_string gives nothing and leaves the
      reader just past the prefix. */
  lemma LongStringLost(buf0: seq<byte>, at: int, s: seq<byte>)
    requires 0 <= at <= |buf0| && 0x8000 <= |s| < 0x1_0000
    ensures StringAt(Overwrite(buf0, at, EncodeShort(|s|) + s), at) == Parsed([], at + 2)
  {
    var buf := Overwrite(buf0, at, EncodeShort(|s|) + s);
    OverwriteFacts(buf0, at, EncodeShort(|s|) + s);
    assert buf[at..at + 2] == EncodeShort(|s|);
    ShortRoundTrip(|s|);
  }

  /** The read side of the connection: the read buffer, the reader, the
      readable count, next_packet_size and the decrypt state. */
  datatype ReadSide = ReadSide(buf: seq<byte>, at: int, readable: int, pending: int, cipher: KeyState)

  /** The read side after a has_packet call with verdict v, from the read
      buffer buf0, the end end0 of the readable bytes (reader plus
      readable count) and the decrypt state s0 before it. The readable
      bytes still end at end0 as seen from the verdict's reader. On "yes"
      the reader is at the packet's first byte, no length is pending,
      and, with encryption on, the packet's bytes alone are decrypted with
      s0, which advances by one round per byte. On "no" the unconsumed
      bytes are moved to the front in order and the reader is at 0, the
      pending length is stored, and the decrypt state is untouched. */
  function Effect(v: Verdict, enc: bool, buf0: seq<byte>, end0: int, s0: KeyState): (r: ReadSide)
    requires end0 <= |buf0| && (v.Ready? ==> v.at + v.len <= end0)
    ensures r.readable == end0 - v.at
    ensures r.pending == if v.Ready? then 0 else v.pending
    ensures r.cipher == s0 || (enc && v.Ready?)
  {
    match v
    case Ready(a, len) =>
      if enc then ReadSide(Overwrite(buf0, a, Apply(s0, buf0[a..a + len])), a, end0 - a, 0, Advance(s0, len))
      else ReadSide(buf0, a, end0 - a, 0, s0)
    case Waiting(a, p) =>
      ReadSide(Compact(buf0, a, end0 - a), 0, end0 - a, p, s0)
  }

  /** has_packet's contract on values: from the read buffer buf0, the
      reader at0, the readable count n0, the pending length p0 and the
      decrypt state s0, the answer b is whether Reassemble says "yes",
      and r is the read side Effect describes for its verdict. */
  ghost predicate Outcome(buf0: seq<byte>, at0: nat, n0: int, p0: int, enc: bool, s0: KeyState,
                          b: bool, r: ReadSide)
    requires at0 + n0 <= |buf0| && IsInt16(p0)
  {
    var v := Reassemble(buf0, at0, at0 + n0, p0);
    var e := Effect(v, enc, buf0, at0 + n0, s0);
    && b == v.Ready?
    && r.buf == e.buf && r.at == e.at && r.readable == e.readable
    && r.pending == e.pending && r.cipher == e.cipher
  }

  /** The "yes" branch of has_packet meets Outcome, given the buffer and
      cipher state the decryption step leaves. */
  lemma ReadyOutcome(buf0: seq<byte>, at0: nat, n0: int, p0: int, enc: bool, s0: KeyState,
                     buf: seq<byte>, s: KeyState)
    requires at0 + n0 <= |buf0| && IsInt16(p0) && 0 < p0 <= n0
    requires buf == (if enc then Overwrite(buf0, at0, Apply(s0, buf0[at0..at0 + p0])) else buf0)
    requires s == (if enc then Advance(s0, p0) else s0)
    ensures Outcome(buf0, at0, n0, p0, enc, s0, true, ReadSide(buf, at0, n0, 0, s))
  {
    assert Reassemble(buf0, at0, at0 + n0, p0) == Ready(at0, p0);
    var e := Effect(Ready(at0, p0), enc, buf0, at0 + n0, s0);
    assert e.buf == buf && e.cipher == s;
  }

  /** The header branch of has_packet meets Outcome when the call that
      follows the header does. */
  lemma HeaderOutcome(buf0: seq<byte>, at0: nat, n0: int, p0: int, enc: bool, s0: KeyState,
                      b: bool, r: ReadSide)
    requires at0 + n0 <= |buf0| && IsInt16(p0) && p0 <= 0 && n0 > 2
    requires Outcome(buf0, at0 + 2, n0 - 2, DecodeShort(buf0[at0..at0 + 2]), enc, s0, b, r)
    ensures Outcome(buf0, at0, n0, p0, enc, s0, b, r)
  {
    assert Reassemble(buf0, at0, at0 + n0, p0)
        == Reassemble(buf0, at0 + 2, at0 + n0, DecodeShort(buf0[at0..at0 + 2]));
  }

  /** The "no" branch of has_packet meets Outcome, given the buffer the
      compaction leaves. */
  lemma WaitingOutcome(buf0: seq<byte>, at0: nat, n0: int, p0: int, enc: bool, s0: KeyState,
                       buf: seq<byte>)
    requires at0 + n0 <= |buf0| && IsInt16(p0)
    requires if p0 > 0 then n0 < p0 else n0 <= 2
    requires buf == Compact(buf0, at0, n0)
    ensures Outcome(buf0, at0, n0, p0, enc, s0, false, ReadSide(buf, 0, n0, p0, s0))
  {
    assert Reassemble(buf0, at0, at0 + n0, p0) == Waiting(at0, p0);
  }

  /** After a "yes" the packet at the reader is the payload as it
      arrived, decrypted when encryption is on, and nothing else in the
      buffer has changed. */
  lemma ReadyPacket(a: nat, len: nat, enc: bool, buf0: seq<byte>, end0: int, s0: KeyState)
    requires end0 <= |buf0| && a + len <= end0
    ensures var r := Effect(Ready(a, len), enc, buf0, end0, s0);
      && |r.buf| == |buf0|
      && r.buf[a..a + len] == (if enc then Apply(s0, buf0[a..a + len]) else buf0[a..a + len])
      && r.buf[..a] == buf0[..a] && r.buf[a + len..] == buf0[a + len..]
      && r.at == a && r.readable == end0 - a && r.pending == 0
  {
    if enc {
      var c := Apply(s0, buf0[a..a + len]);
      assert Effect(Ready(a, len), enc, buf0, end0, s0).buf == Overwrite(buf0, a, c);
      OverwriteInside(buf0, a, c);
    }
  }

  /** After a "no" the unread window is at the front of the buffer and
      holds what was left of the readable bytes, in order. */
  lemma WaitingWindow(a: nat, p: int, enc: bool, buf0: seq<byte>, end0: int, s0: KeyState)
    requires end0 <= |buf0|
    ensures var r := Effect(Waiting(a, p), enc, buf0, end0, s0);
      && |r.buf| == |buf0| && r.at == 0 && r.pending == p && r.cipher == s0
      && (a < end0 ==> r.readable == end0 - a && r.buf[..end0 - a] == buf0[a..end0])
      && (end0 <= a ==> r.buf == buf0)
  {
  }

  /** send_packet's buffer: the header written at 0 leaves the payload
      bytes in place, and the header followed by the (possibly crypted)
      payload at 2 is the frame of that payload. */
  lemma HeaderThenBody(b0: seq<byte>, n: int, body: seq<byte>)
    requires 0 <= n && n + 2 <= |b0| && |body| == n
    ensures var b1 := Overwrite(b0, 0, EncodeShort(n));
      && b1[2..2 + n] == b0[2..2 + n]
      && Overwrite(b1, 2, body) == Overwrite(b0, 0, Frame(body))
      && Overwrite(b0, 0, Frame(body))[..n + 2] == Frame(body)
  {
    var b1 := Overwrite(b0, 0, EncodeShort(n));
    assert b1 == EncodeShort(n) + b0[2..];
    OverwriteConcat(b0, 0, EncodeShort(n), body);
    assert Overwrite(b0, 0, Frame(body)) == Frame(body) + b0[n + 2..];
  }

  class TcpExt {
    var writeBuf: seq<byte>
    var writerIndex: int

    var readBuf: seq<byte>
    var readerIndex: int
    /** An int16_t. */
    var nextPacketSize: int
    var readableBytes: int

    var secret: seq<byte>
    var useEncryption: bool

    /** The chunks handed to the transport's put_data, oldest first. */
    var sent: seq<seq<byte>>

    const encrypt: Rc4State
    const decrypt: Rc4State

    /** Two separate cipher states, each with its table of 256 entries. */
    ghost predicate Ciphers()
    {
      && encrypt != decrypt && encrypt.m != decrypt.m
      && encrypt.m.Length == 256 && decrypt.m.Length == 256
    }

    /** What holds from set_tcp on: the writer is past the 2 header
        bytes and within the write buffer, the reader within the read
        buffer, the readable count never above the buffer size, and the
        pending length an int16_t. */
    ghost predicate Valid()
      reads this
    {
      && Ciphers()
      && 2 <= writerIndex <= |writeBuf|
      && 0 <= readerIndex <= |readBuf|
      && readableBytes <= |readBuf|
      && IsInt16(nextPacketSize)
    }

    /** The readable bytes lie within the buffer from the reader on. */
    ghost predicate Framed()
      reads this
    {
      readerIndex + readableBytes <= |readBuf|
    }

    /** The unread window: the readable bytes from the reader on. */
    ghost function Window(): (w: seq<byte>)
      reads this
      requires Valid() && Framed()
    {
      if readableBytes > 0 then readBuf[readerIndex..readerIndex + readableBytes] else []
    }

    /** The constructor leaves the buffers empty and the integer fields
        as C++ leaves them: indeterminate. */
    constructor ()
      ensures Ciphers() && fresh(encrypt) && fresh(decrypt) && fresh(encrypt.m) && fresh(decrypt.m)
      ensures writeBuf == [] && readBuf == [] && secret == [] && sent == []
    {
      writeBuf, readBuf, secret, sent := [], [], [], [];
      encrypt := new Rc4State();
      decrypt := new Rc4State();
    }

    /** set_tcp: fresh 1024-byte buffers whose contents are not
        specified, the writer just past the header, nothing readable,
        no pending length and encryption off. The transport is new, so
        nothing has been sent on it. */
    method SetTcp()
      requires Ciphers()
      modifies this
      ensures Valid() && Framed()
      ensures |writeBuf| == 1024 && writerIndex == 2
      ensures |readBuf| == 1024 && readerIndex == 0 && nextPacketSize == 0 && readableBytes == 0
      ensures !useEncryption && sent == [] && secret == old(secret)
    {
      assert |seq(1024, _ => 0 as byte)| == 1024;
      var wb: seq<byte> :| |wb| == 1024;
      var rb: seq<byte> :| |rb| == 1024;
      writeBuf, writerIndex := wb, 2;
      readBuf, readerIndex, nextPacketSize := rb, 0, 0;
      readableBytes := 0;
      useEncryption := false;
      sent := [];
    }

    /** set_secret: both cipher states are set up from the same key, so
        they are equal. The key must hold at least one byte, since the
        key schedule reads its first byte. */
    method SetSecret(key: seq<byte>)
      requires Ciphers() && 1 <= |key|
      modifies this`secret, encrypt, encrypt.m, decrypt, decrypt.m
      ensures secret == key
      ensures encrypt.Value() == Schedule(key) && decrypt.Value() == Schedule(key)
      ensures Valid() == old(Valid()) && Framed() == old(Framed())
    {
      secret := key;
      encrypt.Setup(key);
      decrypt.Setup(key);
    }

    method SetUseEncryption(on: bool)
      modifies this`useEncryption
      ensures useEncryption == on
    {
      useEncryption := on;
    }

    // -------------------------------------------------------------------
    // Writing

    /** write_data: the first `count` bytes of `data` are copied in at the
        writer, growing the buffer when they do not fit; a count of 0 or
        less changes nothing. The caller's buffer must hold `count`
        bytes. */
    method WriteData(data: seq<byte>, count: int)
      requires 0 <= writerIndex <= |writeBuf| && count <= |data|
      modifies this`writeBuf, this`writerIndex
      ensures count <= 0 ==> writeBuf == old(writeBuf) && writerIndex == old(writerIndex)
      ensures count > 0 ==> writeBuf == Overwrite(old(writeBuf), old(writerIndex), data[..count])
      ensures count > 0 ==> writerIndex == old(writerIndex) + count
      ensures 0 <= writerIndex <= |writeBuf| && writerIndex >= old(writerIndex)
      ensures old(Valid()) ==> Valid()
    {
      if count <= 0 {
        return;
      }
      writeBuf := Overwrite(writeBuf, writerIndex, data[..count]);
      writerIndex := writerIndex + count;
    }

    /** Appends `bytes` at the writer: the common contract of the typed
        writers below. */
    ghost predicate Appended(oldBuf: seq<byte>, oldIndex: int, bytes: seq<byte>)
      reads this
      requires 0 <= oldIndex <= |oldBuf|
    {
      writeBuf == Overwrite(oldBuf, oldIndex, bytes) && writerIndex == oldIndex + |bytes|
    }

    /** write_byte: the value as an int8_t, one byte. */
    method WriteByte(v: int)
      requires 0 <= writerIndex <= |writeBuf|
      modifies this`writeBuf, this`writerIndex
      ensures Appended(old(writeBuf), old(writerIndex), [ByteOf(v)])
      ensures old(Valid()) ==> Valid()
    {
      WriteData([ByteOf(v)], 1);
      assert [ByteOf(v)][..1] == [ByteOf(v)];
    }

    /** write_bool: true as the byte 1, false as 0. */
    method WriteBool(v: bool)
      requires 0 <= writerIndex <= |writeBuf|
      modifies this`writeBuf, this`writerIndex
      ensures Appended(old(writeBuf), old(writerIndex), [if v then 1 else 0])
      ensures old(Valid()) ==> Valid()
    {
      WriteByte(if v then 1 else 0);
    }

    /** write_short: the value truncated to int16_t, most significant
        byte first. */
    method WriteShort(v: int)
      requires 0 <= writerIndex <= |writeBuf|
      modifies this`writeBuf, this`writerIndex
      ensures Appended(old(writeBuf), old(writerIndex), EncodeShort(v))
      ensures old(Valid()) ==> Valid()
    {
      var b := EncodeShort(v);
      WriteData(b, 2);
      assert b[..2] == b;
    }

    /** write_int: the value truncated to int32_t, most significant byte
        first. */
    method WriteInt(v: int)
      requires 0 <= writerIndex <= |writeBuf|
      modifies this`writeBuf, this`writerIndex
      ensures Appended(old(writeBuf), old(writerIndex), EncodeInt(v))
      ensures old(Valid()) ==> Valid()
    {
      var b := EncodeInt(v);
      WriteData(b, 4);
      assert b[..4] == b;
    }

    /** write_string and write_wide_string: the byte length as a
        write_short (so truncated to int16_t), then the bytes. */
    method WriteString(s: seq<byte>)
      requires 0 <= writerIndex <= |writeBuf|
      modifies this`writeBuf, this`writerIndex
      ensures Appended(old(writeBuf), old(writerIndex), EncodeShort(|s|) + s)
      ensures old(Valid()) ==> Valid()
    {
      ghost var b0, i0 := writeBuf, writerIndex;
      WriteShort(|s|);
      WriteData(s, |s|);
      assert s[..|s|] == s;
      OverwriteConcat(b0, i0, EncodeShort(|s|), s);
    }

    /** write_byte_array: the first `length` bytes of the array, through
        write_data, so nothing for a length of 0 or less. */
    method WriteByteArray(arr: seq<byte>, length: int)
      requires 0 <= writerIndex <= |writeBuf| && length <= |arr|
      modifies this`writeBuf, this`writerIndex
      ensures length <= 0 ==> writeBuf == old(writeBuf) && writerIndex == old(writerIndex)
      ensures length > 0 ==> Appended(old(writeBuf), old(writerIndex), arr[..length])
      ensures old(Valid()) ==> Valid()
    {
      WriteData(arr, length);
    }

    /** send_packet: the payload is what was written after the 2 header
        bytes; its length, truncated to int16_t, goes into the header, the
        payload alone is encrypted when encryption is on, and the header
        and payload are handed to the transport. The writer is then back
        just past the header. */
    method SendPacket()
      requires Valid()
      modifies this`writeBuf, this`writerIndex, this`sent, encrypt, encrypt.m
      ensures Valid() && writerIndex == 2
      ensures var payload := old(writeBuf)[2..old(writerIndex)];
        var body := if useEncryption then Apply(old(encrypt.Value()), payload) else payload;
        && sent == old(sent) + [Frame(body)]
        && writeBuf == Overwrite(old(writeBuf), 0, Frame(body))
      ensures useEncryption ==> encrypt.Value() == Advance(old(encrypt.Value()), old(writerIndex) - 2)
      ensures !useEncryption ==> unchanged(encrypt) && unchanged(encrypt.m)
    {
      ghost var b0 := writeBuf;
      ghost var payload := writeBuf[2..writerIndex];
      var packetSize := writerIndex - 2;
      writerIndex := 0;
      WriteShort(packetSize);
      if useEncryption {
        HeaderThenBody(b0, packetSize, payload);
        var c := encrypt.Crypt(writeBuf[2..2 + packetSize]);
        HeaderThenBody(b0, packetSize, c);
        writeBuf := Overwrite(writeBuf, 2, c);
      } else {
        HeaderThenBody(b0, packetSize, payload);
        OverwriteSelf(writeBuf, 2, packetSize);
      }
      sent := sent + [writeBuf[..packetSize + 2]];
      writerIndex := 2;
    }

    // -------------------------------------------------------------------
    // Reading

    /** read_partial_data: copies Received(...) bytes from the reader and
        moves the reader past them, counting them off the readable
        bytes. */
    method ReadPartialData(n: int) returns (data: seq<byte>, received: int)
      requires 0 <= readerIndex <= |readBuf| && 0 <= n
      modifies this`readerIndex, this`readableBytes
      ensures received == Received(|readBuf|, old(readerIndex), n)
      ensures data == readBuf[old(readerIndex)..old(readerIndex) + received]
      ensures readerIndex == old(readerIndex) + received
      ensures readableBytes == old(readableBytes) - received
      ensures old(Valid()) ==> Valid()
      ensures old(Framed()) ==> Framed()
    {
      if readerIndex + n > |readBuf| {
        received := |readBuf| - readerIndex;
        if received <= 0 {
          received := 0;
          return [], received;
        }
      } else {
        received := n;
      }
      data := readBuf[readerIndex..readerIndex + received];
      readerIndex := readerIndex + received;
      readableBytes := readableBytes - received;
    }

    /** read_data: the error result is reported exactly when fewer than
        n bytes could be read. */
    method ReadData(n: int) returns (data: seq<byte>, ok: bool)
      requires 0 <= readerIndex <= |readBuf| && 0 <= n
      modifies this`readerIndex, this`readableBytes
      ensures ok <==> old(readerIndex) + n <= |readBuf|
      ensures var r := Received(|readBuf|, old(readerIndex), n);
        && data == readBuf[old(readerIndex)..old(readerIndex) + r]
        && readerIndex == old(readerIndex) + r && readableBytes == old(readableBytes) - r
      ensures old(Valid()) ==> Valid()
      ensures old(Framed()) ==> Framed()
    {
      var received;
      data, received := ReadPartialData(n);
      ok := received == n;
    }

    /** read_byte: the byte at the reader as an int8_t. When no byte is
        left the source returns an uninitialised byte, so the value is
        then not specified. */
    method ReadByte() returns (v: int, ok: bool)
      requires 0 <= readerIndex <= |readBuf|
      modifies this`readerIndex, this`readableBytes
      ensures IsInt8(v)
      ensures ok <==> old(readerIndex) + 1 <= |readBuf|
      ensures ok ==> v == Int8(readBuf[old(readerIndex)] as int)
      ensures var r := Received(|readBuf|, old(readerIndex), 1);
        readerIndex == old(readerIndex) + r && readableBytes == old(readableBytes) - r
      ensures old(Valid()) ==> Valid()
      ensures old(Framed()) ==> Framed()
    {
      var data;
      data, ok := ReadData(1);
      v := if ok then Int8(data[0] as int) else 0;
    }

    /** read_bool: any non-zero byte is true. */
    method ReadBool() returns (v: bool, ok: bool)
      requires 0 <= readerIndex <= |readBuf|
      modifies this`readerIndex, this`readableBytes
      ensures ok <==> old(readerIndex) + 1 <= |readBuf|
      ensures ok ==> (v <==> readBuf[old(readerIndex)] != 0)
      ensures var r := Received(|readBuf|, old(readerIndex), 1);
        readerIndex == old(readerIndex) + r && readableBytes == old(readableBytes) - r
      ensures old(Valid()) ==> Valid()
      ensures old(Framed()) ==> Framed()
    {
      var b;
      b, ok := ReadByte();
      v := b != 0;
    }

    /** read_short: two bytes, most significant first, as an int16_t;
        not specified when fewer than two bytes are left. */
    method ReadShort() returns (v: int, ok: bool)
      requires 0 <= readerIndex <= |readBuf|
      modifies this`readerIndex, this`readableBytes
      ensures IsInt16(v)
      ensures ok <==> old(readerIndex) + 2 <= |readBuf|
      ensures ok ==> v == DecodeShort(readBuf[old(readerIndex)..old(readerIndex) + 2])
      ensures var r := Received(|readBuf|, old(readerIndex), 2);
        readerIndex == old(readerIndex) + r && readableBytes == old(readableBytes) - r
      ensures old(Valid()) ==> Valid()
      ensures old(Framed()) ==> Framed()
    {
      var data;
      data, ok := ReadData(2);
      v := if ok then DecodeShort(data) else 0;
    }

    /** read_ushort: two bytes, most significant first, as a uint16_t. */
    method ReadUShort() returns (v: int, ok: bool)
      requires 0 <= readerIndex <= |readBuf|
      modifies this`readerIndex, this`readableBytes
      ensures 0 <= v < 0x1_0000
      ensures ok <==> old(readerIndex) + 2 <= |readBuf|
      ensures ok ==> v == DecodeUShort(readBuf[old(readerIndex)..old(readerIndex) + 2])
      ensures var r := Received(|readBuf|, old(readerIndex), 2);
        readerIndex == old(readerIndex) + r && readableBytes == old(readableBytes) - r
      ensures old(Valid()) ==> Valid()
      ensures old(Framed()) ==> Framed()
    {
      var data;
      data, ok := ReadData(2);
      v := if ok then DecodeUShort(data) else 0;
    }

    /** read_int: four bytes, most significant first, as an int32_t. */
    method ReadInt() returns (v: int, ok: bool)
      requires 0 <= readerIndex <= |readBuf|
      modifies this`readerIndex, this`readableBytes
      ensures IsInt32(v)
      ensures ok <==> old(readerIndex) + 4 <= |readBuf|
      ensures ok ==> v == DecodeInt(readBuf[old(readerIndex)..old(readerIndex) + 4])
      ensures var r := Received(|readBuf|, old(readerIndex), 4);
        readerIndex == old(readerIndex) + r && readableBytes == old(readableBytes) - r
      ensures old(Valid()) ==> Valid()
      ensures old(Framed()) ==> Framed()
    {
      var data;
      data, ok := ReadData(4);
      v := if ok then DecodeInt(data) else 0;
    }

    /** read_string: the byte payload of a string written by write_string. */
    method ReadString() returns (s: seq<byte>)
      requires 0 <= readerIndex <= |readBuf|
      modifies this`readerIndex, this`readableBytes
      ensures var r := StringAt(readBuf, old(readerIndex));
        s == r.bytes && readerIndex == r.next
      ensures readableBytes == old(readableBytes) - (readerIndex - old(readerIndex))
      ensures old(Valid()) ==> Valid()
      ensures old(Framed()) ==> Framed()
    {
      var len, ok := ReadShort();
      if len < 0 {
        return [];
      }
      var data, ok2 := ReadData(len);
      if !ok2 {
        return [];
      }
      s := data;
    }

    /** read_wide_string: as read_string, then cut at the first zero byte
        when turned from a C string into a String. */
    method ReadWideString() returns (s: seq<byte>)
      requires 0 <= readerIndex <= |readBuf|
      modifies this`readerIndex, this`readableBytes
      ensures var r := StringAt(readBuf, old(readerIndex));
        s == UntilZero(r.bytes) && readerIndex == r.next
      ensures readableBytes == old(readableBytes) - (readerIndex - old(readerIndex))
      ensures old(Valid()) ==> Valid()
      ensures old(Framed()) ==> Framed()
    {
      var raw := ReadString();
      s := UntilZero(raw);
    }

    /** read_byte_array: a negative size fails the resize, so nothing is
        read; otherwise an array of `size` bytes that starts with what
        read_data could read, and whose other bytes are not specified. */
    method ReadByteArray(size: int) returns (arr: seq<byte>)
      requires 0 <= readerIndex <= |readBuf|
      modifies this`readerIndex, this`readableBytes
      ensures size < 0 ==> arr == [] && readerIndex == old(readerIndex) && readableBytes == old(readableBytes)
      ensures size >= 0 ==>
        var r := Received(|readBuf|, old(readerIndex), size);
        && |arr| == size
        && arr[..r] == readBuf[old(readerIndex)..old(readerIndex) + r]
        && readerIndex == old(readerIndex) + r && readableBytes == old(readableBytes) - r
      ensures old(Valid()) ==> Valid()
      ensures old(Framed()) ==> Framed()
    {
      if size < 0 {
        return [];
      }
      var data, ok := ReadData(size);
      arr := data + seq(size - |data|, _ => 0);
      assert arr[..|data|] == data;
    }

    // -------------------------------------------------------------------
    // Receiving

    /** poll_packets: a transport with nothing available gives false and
        changes nothing. Otherwise its bytes are copied in at offset
        readable_bytes, growing the buffer as needed, and become readable.
        That offset is the end of the unread window only when the reader
        is at 0, which is what every "no" from has_packet leaves. */
    method Poll(chunk: seq<byte>) returns (b: bool)
      requires Valid() && 0 <= readableBytes
      modifies this`readBuf, this`readableBytes
      ensures b == (|chunk| > 0)
      ensures |chunk| == 0 ==> readBuf == old(readBuf) && readableBytes == old(readableBytes)
      ensures |chunk| > 0 ==> readBuf == Overwrite(old(readBuf), old(readableBytes), chunk)
      ensures readableBytes == old(readableBytes) + |chunk|
      ensures Valid()
      ensures old(readerIndex) == 0 ==>
        Framed() && Window() == old(readBuf)[..old(readableBytes)] + chunk
    {
      if |chunk| == 0 {
        return false;
      }
      readBuf := Overwrite(readBuf, readableBytes, chunk);
      readableBytes := readableBytes + |chunk|;
      b := true;
    }

    /** has_packet, proved against Reassemble on the read buffer from the
        reader to the end of the readable bytes, with the effect Effect
        describes. Each branch is one of the three methods below. */
    method HasPacket() returns (b: bool)
      requires Valid() && Framed()
      modifies this`readBuf, this`readerIndex, this`readableBytes, this`nextPacketSize
      modifies decrypt, decrypt.m
      ensures Valid() && Framed()
      ensures Outcome(old(readBuf), old(readerIndex), old(readableBytes), old(nextPacketSize),
                      useEncryption, old(decrypt.Value()), b,
                      ReadSide(readBuf, readerIndex, readableBytes, nextPacketSize, decrypt.Value()))
      decreases readableBytes, 1
    {
      if nextPacketSize > 0 {
        if readableBytes >= nextPacketSize {
          Deliver();
          return true;
        }
      } else if readableBytes > 2 {
        b := NextHeader();
        return;
      }
      Compaction();
      return false;
    }

    /** The "yes" branch of has_packet: the pending packet is decrypted
        in place when encryption is on, and no length is pending. */
    method Deliver()
      requires Valid() && Framed() && 0 < nextPacketSize <= readableBytes
      modifies this`readBuf, this`nextPacketSize, decrypt, decrypt.m
      ensures Valid() && Framed()
      ensures Outcome(old(readBuf), old(readerIndex), old(readableBytes), old(nextPacketSize),
                      useEncryption, old(decrypt.Value()), true,
                      ReadSide(readBuf, readerIndex, readableBytes, nextPacketSize, decrypt.Value()))
    {
      ghost var s0 := decrypt.Value();
      var buf, at, n, p, enc := readBuf, readerIndex, readableBytes, nextPacketSize, useEncryption;
      var out := buf;
      if enc {
        var c := decrypt.Crypt(buf[at..at + p]);
        out := Overwrite(buf, at, c);
      }
      ReadyOutcome(buf, at, n, p, enc, s0, out, decrypt.Value());
      readBuf, nextPacketSize := out, 0;
    }

    /** The branch of has_packet that reads a length header and asks
        again. */
    method NextHeader() returns (b: bool)
      requires Valid() && Framed() && nextPacketSize <= 0 && readableBytes > 2
      modifies this`readBuf, this`readerIndex, this`readableBytes, this`nextPacketSize
      modifies decrypt, decrypt.m
      ensures Valid() && Framed()
      ensures Outcome(old(readBuf), old(readerIndex), old(readableBytes), old(nextPacketSize),
                      useEncryption, old(decrypt.Value()), b,
                      ReadSide(readBuf, readerIndex, readableBytes, nextPacketSize, decrypt.Value()))
      decreases readableBytes, 0
    {
      ghost var buf0, at0, n0, p0, s0 := readBuf, readerIndex, readableBytes, nextPacketSize, decrypt.Value();
      ghost var enc := useEncryption;
      var h, ok := ReadShort();
      nextPacketSize := h;
      assert readBuf == buf0 && readerIndex == at0 + 2 && readableBytes == n0 - 2 && decrypt.Value() == s0;
      assert h == DecodeShort(buf0[at0..at0 + 2]);
      b := HasPacket();
      ghost var r := ReadSide(readBuf, readerIndex, readableBytes, nextPacketSize, decrypt.Value());
      HeaderOutcome(buf0, at0, n0, p0, enc, s0, b, r);
    }

    /** The "no" branch of has_packet: when the reader is past 0, the
        readable bytes move to the front and the reader to 0; a length
        read earlier stays pending. */
    method Compaction()
      requires Valid() && Framed()
      requires if nextPacketSize > 0 then readableBytes < nextPacketSize else readableBytes <= 2
      modifies this`readBuf, this`readerIndex
      ensures Valid() && Framed()
      ensures Outcome(old(readBuf), old(readerIndex), old(readableBytes), old(nextPacketSize),
                      useEncryption, old(decrypt.Value()), false,
                      ReadSide(readBuf, readerIndex, readableBytes, nextPacketSize, decrypt.Value()))
    {
      ghost var buf0, at0 := readBuf, readerIndex;
      if readerIndex > 0 {
        if readableBytes > 0 {
          readBuf := Compact(readBuf, readerIndex, readableBytes);
        }
        readerIndex := 0;
      } else if readableBytes > 0 {
        assert readBuf[..readableBytes] + readBuf[readableBytes..] == readBuf;
      }
      WaitingOutcome(buf0, at0, readableBytes, nextPacketSize, useEncryption, decrypt.Value(), readBuf);
    }
  }
}
