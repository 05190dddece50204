/** The decision has_packet takes, as a function of the read buffer, the
    reader, the end of the readable bytes and the pending length
    next_packet_size, and what follows from it: a receiver polling any
    number of chunks takes the packets the whole stream holds, however it
    is cut, and the frames send_packet emits come out one by one. */
module Reassembly {
  import opened Wire
  import opened Rc4

  /** Where one call of has_packet leaves the reader: after the headers
      it consumed, either at the first byte of a packet of `len` bytes,
      or, when it answers "no", before the unconsumed bytes, with
      `pending` stored as next_packet_size. */
  datatype Verdict = Ready(at: nat, len: nat) | Waiting(at: nat, pending: int)

  /** The length a verdict delivers, or leaves pending. */
  function Length(v: Verdict): int
  {
    if v.Ready? then v.len else v.pending
  }

  /** The same verdict with the reader k bytes further on. */
  function Move(v: Verdict, k: nat): (r: Verdict)
    ensures r.at == v.at + k && r.Ready? == v.Ready? && Length(r) == Length(v)
  {
    match v
    case Ready(a, l) => Ready(a + k, l)
    case Waiting(a, p) => Waiting(a + k, p)
  }

  /** has_packet on the buffer b with the reader at `at`, the readable
      bytes ending at `end` (reader_index + readable_bytes, which reading
      a header does not change) and next_packet_size = pending: a
      positive pending length is a packet once that many bytes are
      readable; otherwise, with more than two bytes readable, a 2-byte
      header is read as an int16_t and the check runs again; otherwise
      the answer is "no". A header of 0 and a header of 0x8000 or more
      (negative as int16_t) both leave no pending length, so the next two
      bytes are read as a header again. */
  function Reassemble(b: seq<byte>, at: nat, end: int, pending: int): (v: Verdict)
    requires end <= |b| && IsInt16(pending)
    ensures at <= v.at && (v.at > at ==> v.at <= end)
    ensures v.Ready? ==> 0 < v.len < 0x8000 && v.at + v.len <= end
    ensures v.Waiting? ==> IsInt16(v.pending)
    decreases end - at
  {
    if pending > 0 then
      if end - at >= pending then Ready(at, pending) else Waiting(at, pending)
    else if end - at > 2 then
      Reassemble(b, at + 2, end, DecodeShort(b[at..at + 2]))
    else
      Waiting(at, pending)
  }

  /** The packets a receiver gets from b[at..end] when it reads each
      packet's payload right after has_packet says yes. */
  function Packets(b: seq<byte>, at: nat, end: int, pending: int): (ps: seq<seq<byte>>)
    requires end <= |b| && IsInt16(pending)
    decreases end - at
  {
    var v := Reassemble(b, at, end, pending);
    if v.Waiting? then [] else [b[v.at..v.at + v.len]] + Packets(b, v.at + v.len, end, 0)
  }

  /** A "yes" delivers its packet first, and the rest follow, and end,
      as from just past it with no length pending. */
  lemma PacketsUnfold(b: seq<byte>, at: nat, end: int, pending: int)
    requires end <= |b| && IsInt16(pending) && Reassemble(b, at, end, pending).Ready?
    ensures var v := Reassemble(b, at, end, pending);
      && Packets(b, at, end, pending) == [b[v.at..v.at + v.len]] + Packets(b, v.at + v.len, end, 0)
      && Rest(b, at, end, pending) == Rest(b, v.at + v.len, end, 0)
  {
  }

  /** Every packet has from 1 to 0x7FFF bytes. */
  lemma {:induction false} PacketsDeliverable(b: seq<byte>, at: nat, end: int, pending: int)
    requires end <= |b| && IsInt16(pending)
    ensures Deliverable(Packets(b, at, end, pending))
    decreases end - at
  {
    var v := Reassemble(b, at, end, pending);
    if v.Ready? {
      PacketsDeliverable(b, v.at + v.len, end, 0);
      DeliverableCons(b[v.at..v.at + v.len], Packets(b, v.at + v.len, end, 0));
    }
  }

  /** Where the reader stands once every packet of b[at..end] has been
      taken: the "no" that ends them, still before the end. */
  function Rest(b: seq<byte>, at: nat, end: int, pending: int): (v: Verdict)
    requires end <= |b| && IsInt16(pending)
    ensures v.Waiting? && at <= v.at && IsInt16(v.pending)
    ensures at <= end ==> v.at <= end
    decreases end - at
  {
    match Reassemble(b, at, end, pending)
    case Ready(a, n) => Rest(b, a + n, end, 0)
    case Waiting(a, p) => Waiting(a, p)
  }

  /** What send_packet emits for one payload: its length as a big-endian
      int16_t header, then the payload. */
  function Frame(payload: seq<byte>): (f: seq<byte>)
    ensures |f| == |payload| + 2
  {
    EncodeShort(|payload|) + payload
  }

  /** The byte stream of several frames sent one after the other: two
      header bytes at least per frame, and nothing only for no frames. */
  function Stream(frames: seq<seq<byte>>): (s: seq<byte>)
    ensures |s| >= 2 * |frames|
    ensures s == [] <==> frames == []
    decreases |frames|
  {
    if frames == [] then [] else Frame(frames[0]) + Stream(frames[1..])
  }

  /** Payload sizes has_packet can deliver: from 1 to 0x7FFF bytes. */
  predicate Deliverable(frames: seq<seq<byte>>)
  {
    forall i :: 0 <= i < |frames| ==> 0 < |frames[i]| < 0x8000
  }

  // ---------------------------------------------------------------------
  // Headers

  /** The length a verdict delivers or leaves pending is the one the call
      started with when no header was read, and otherwise the last
      header read. */
  lemma {:induction false} ReassembleHeader(b: seq<byte>, at: nat, end: int, pending: int)
    requires end <= |b| && IsInt16(pending)
    ensures var v := Reassemble(b, at, end, pending);
      && (v.at == at ==> Length(v) == pending)
      && (v.at > at ==> at + 2 <= v.at && Length(v) == DecodeShort(b[v.at - 2..v.at]))
    decreases end - at
  {
    if pending <= 0 && end - at > 2 {
      ReassembleHeader(b, at + 2, end, DecodeShort(b[at..at + 2]));
    }
  }

  /** has_packet answers "no" only when neither the pending packet nor a
      further header is readable. */
  lemma {:induction false} ReassembleStuck(b: seq<byte>, at: nat, end: int, pending: int)
    requires end <= |b| && IsInt16(pending)
    ensures var v := Reassemble(b, at, end, pending);
      v.Waiting? ==> if v.pending > 0 then end - v.at < v.pending else end - v.at <= 2
    decreases end - at
  {
    if pending <= 0 && end - at > 2 {
      ReassembleStuck(b, at + 2, end, DecodeShort(b[at..at + 2]));
    }
  }

  /** A frame of n bytes, 0 < n < 0x8000, at the reader is recognised as
      soon as it is complete: the reader ends up past its header. */
  lemma FrameRoundTrip(b: seq<byte>, at: nat, end: int, payload: seq<byte>, pending: int)
    requires at + |payload| + 2 <= end <= |b| && b[at..at + |payload| + 2] == Frame(payload)
    requires 0 < |payload| < 0x8000 && IsInt16(pending) && pending <= 0
    ensures Reassemble(b, at, end, pending) == Ready(at + 2, |payload|)
  {
    var n := |payload|;
    assert DecodeShort(b[at..at + 2]) == n by {
      assert b[at..at + 2] == Frame(payload)[..2] == EncodeShort(n);
      ShortRoundTrip(n);
      assert Int16(n) == n;
    }
    assert Reassemble(b, at, end, pending) == Reassemble(b, at + 2, end, n);
  }

  /** A frame not yet complete past its header is waited for, with its
      length pending. */
  lemma PartialFrame(b: seq<byte>, at: nat, end: int, n: int, pending: int)
    requires end <= |b| && 2 < end - at < n + 2 && b[at..at + 2] == EncodeShort(n)
    requires 0 < n < 0x8000 && IsInt16(pending) && pending <= 0
    ensures Reassemble(b, at, end, pending) == Waiting(at + 2, n)
  {
    ShortRoundTrip(n);
  }

  /** A zero-length header never yields a packet: it is consumed and the
      bytes after it are read as a header again. */
  lemma ZeroHeaderSkipped(b: seq<byte>, at: nat, end: int, pending: int)
    requires end <= |b| && end - at > 2 && b[at..at + 2] == EncodeShort(0)
    requires IsInt16(pending) && pending <= 0
    ensures Reassemble(b, at, end, pending) == Reassemble(b, at + 2, end, 0)
  {
    ShortRoundTrip(0);
  }

  /** A header of 0x8000 or more is stored negative in the int16_t
      next_packet_size, so it leaves no pending length and the bytes
      after it are read as a header again. */
  lemma OversizedHeader(b: seq<byte>, at: nat, end: int, h: int, pending: int)
    requires end <= |b| && end - at > 2 && b[at..at + 2] == EncodeShort(h)
    requires 0x8000 <= h < 0x1_0000 && IsInt16(pending) && pending <= 0
    ensures Int16(h) == h - 0x1_0000 < 0
    ensures Reassemble(b, at, end, pending) == Reassemble(b, at + 2, end, h - 0x1_0000)
  {
    ShortRoundTrip(h);
  }

  // ---------------------------------------------------------------------
  // Fragmentation

  /** Only the readable bytes matter. */
  lemma {:induction false} Locality(b1: seq<byte>, b2: seq<byte>, at: nat, end: int, pending: int)
    requires at <= end <= |b1| && end <= |b2| && b1[at..end] == b2[at..end] && IsInt16(pending)
    ensures Reassemble(b1, at, end, pending) == Reassemble(b2, at, end, pending)
    decreases end - at
  {
    if pending <= 0 && end - at > 2 {
      assert b1[at..at + 2] == b1[at..end][..2] == b2[at..at + 2];
      assert b1[at + 2..end] == b1[at..end][2..] == b2[at + 2..end];
      Locality(b1, b2, at + 2, end, DecodeShort(b1[at..at + 2]));
    }
  }

  /** Dropping the first k bytes of the buffer moves every verdict k
      bytes back. */
  lemma {:induction false} Translation(b: seq<byte>, k: nat, at: nat, end: int, pending: int)
    requires k <= at && k <= |b| && end <= |b| && IsInt16(pending)
    ensures Reassemble(b, at, end, pending) == Move(Reassemble(b[k..], at - k, end - k, pending), k)
    decreases end - at
  {
    if pending <= 0 && end - at > 2 {
      assert b[at..at + 2] == b[k..][at - k..at - k + 2];
      Translation(b, k, at + 2, end, DecodeShort(b[at..at + 2]));
    }
  }

  /** More bytes arriving behind a "no" do not change the headers already
      consumed: the verdict with them is the verdict resumed from where
      the "no" left the reader, with the length it left pending. */
  lemma {:induction false} Resume(b: seq<byte>, at: nat, end1: int, end2: int, pending: int)
    requires end1 <= end2 <= |b| && IsInt16(pending) && Reassemble(b, at, end1, pending).Waiting?
    ensures var v := Reassemble(b, at, end1, pending);
      Reassemble(b, at, end2, pending) == Reassemble(b, v.at, end2, v.pending)
    decreases end1 - at
  {
    if pending <= 0 && end1 - at > 2 {
      Resume(b, at + 2, end1, end2, DecodeShort(b[at..at + 2]));
    }
  }

  lemma DropConcat<T>(u: seq<T>, e: seq<T>, k: nat)
    requires k <= |u|
    ensures (u + e)[k..] == u[k..] + e
  {
  }

  // ---------------------------------------------------------------------
  // Any number of chunks

  /** A "yes" stays a "yes" for the same packet when more bytes arrive. */
  lemma {:induction false} ReadyGrows(b: seq<byte>, at: nat, end1: int, end2: int, pending: int)
    requires end1 <= end2 <= |b| && IsInt16(pending) && Reassemble(b, at, end1, pending).Ready?
    ensures Reassemble(b, at, end2, pending) == Reassemble(b, at, end1, pending)
    decreases end1 - at
  {
    if pending <= 0 {
      ReadyGrows(b, at + 2, end1, end2, DecodeShort(b[at..at + 2]));
    }
  }

  /** After a "no" has answered every poll of a receiver, the packets
      taken are those of the bytes received so far up to that "no", and
      reading goes on from there. */
  lemma {:induction false} PacketsResume(b: seq<byte>, at: nat, end1: int, end2: int, pending: int)
    requires end1 <= end2 <= |b| && IsInt16(pending)
    ensures var f := Rest(b, at, end1, pending);
      && Packets(b, at, end2, pending) == Packets(b, at, end1, pending) + Packets(b, f.at, end2, f.pending)
      && Rest(b, at, end2, pending) == Rest(b, f.at, end2, f.pending)
    decreases end1 - at, 1
  {
    if Reassemble(b, at, end1, pending).Ready? {
      ReadyResume(b, at, end1, end2, pending);
    } else {
      WaitingResume(b, at, end1, end2, pending);
    }
  }

  lemma {:induction false} ReadyResume(b: seq<byte>, at: nat, end1: int, end2: int, pending: int)
    requires end1 <= end2 <= |b| && IsInt16(pending) && Reassemble(b, at, end1, pending).Ready?
    ensures var f := Rest(b, at, end1, pending);
      && Packets(b, at, end2, pending) == Packets(b, at, end1, pending) + Packets(b, f.at, end2, f.pending)
      && Rest(b, at, end2, pending) == Rest(b, f.at, end2, f.pending)
    decreases end1 - at, 0
  {
    var v := Reassemble(b, at, end1, pending);
    var a, n := v.at, v.len;
    var x := b[a..a + n];
    var f := Rest(b, a + n, end1, 0);
    assert Reassemble(b, at, end2, pending) == Ready(a, n) by {
      ReadyGrows(b, at, end1, end2, pending);
    }
    assert Packets(b, at, end1, pending) == [x] + Packets(b, a + n, end1, 0)
        && Rest(b, at, end1, pending) == f by {
      PacketsUnfold(b, at, end1, pending);
    }
    assert Packets(b, at, end2, pending) == [x] + Packets(b, a + n, end2, 0)
        && Rest(b, at, end2, pending) == Rest(b, a + n, end2, 0) by {
      PacketsUnfold(b, at, end2, pending);
    }
    PacketsResume(b, a + n, end1, end2, 0);
    ConsShift(Packets(b, at, end1, pending), Packets(b, a + n, end1, 0),
              Packets(b, at, end2, pending), Packets(b, a + n, end2, 0),
              Packets(b, f.at, end2, f.pending), x);
  }

  lemma ConsShift<T>(p0: seq<T>, p1: seq<T>, q0: seq<T>, q1: seq<T>, r: seq<T>, x: T)
    requires p0 == [x] + p1 && q0 == [x] + q1 && q1 == p1 + r
    ensures q0 == p0 + r
  {
    assert [x] + (p1 + r) == ([x] + p1) + r;
  }

  lemma WaitingResume(b: seq<byte>, at: nat, end1: int, end2: int, pending: int)
    requires end1 <= end2 <= |b| && IsInt16(pending) && Reassemble(b, at, end1, pending).Waiting?
    ensures var f := Rest(b, at, end1, pending);
      && Packets(b, at, end2, pending) == Packets(b, at, end1, pending) + Packets(b, f.at, end2, f.pending)
      && Rest(b, at, end2, pending) == Rest(b, f.at, end2, f.pending)
  {
    var v := Reassemble(b, at, end1, pending);
    assert Rest(b, at, end1, pending) == v && Packets(b, at, end1, pending) == [];
    var r := Reassemble(b, at, end2, pending);
    assert r == Reassemble(b, v.at, end2, v.pending) by {
      Resume(b, at, end1, end2, pending);
    }
  }


  /** Only the readable bytes matter to the packets and to where they end. */
  lemma PacketsLocality(b1: seq<byte>, b2: seq<byte>, at: nat, end: int, pending: int)
    requires at <= end <= |b1| && end <= |b2| && b1[at..end] == b2[at..end] && IsInt16(pending)
    ensures Packets(b1, at, end, pending) == Packets(b2, at, end, pending)
    ensures Rest(b1, at, end, pending) == Rest(b2, at, end, pending)
  {
    ListLocality(b1, b2, at, end, pending);
    RestLocality(b1, b2, at, end, pending);
  }

  lemma {:induction false} ListLocality(b1: seq<byte>, b2: seq<byte>, at: nat, end: int, pending: int)
    requires at <= end <= |b1| && end <= |b2| && b1[at..end] == b2[at..end] && IsInt16(pending)
    ensures Packets(b1, at, end, pending) == Packets(b2, at, end, pending)
    decreases end - at
  {
    var v := Reassemble(b1, at, end, pending);
    assert Reassemble(b2, at, end, pending) == v by {
      Locality(b1, b2, at, end, pending);
    }
    if v.Ready? {
      var a, n := v.at, v.len;
      SubSlice(b1, b2, at, end, a, a + n);
      SubSlice(b1, b2, at, end, a + n, end);
      ListLocality(b1, b2, a + n, end, 0);
      PacketsUnfold(b1, at, end, pending);
      PacketsUnfold(b2, at, end, pending);
    }
  }

  lemma {:induction false} RestLocality(b1: seq<byte>, b2: seq<byte>, at: nat, end: int, pending: int)
    requires at <= end <= |b1| && end <= |b2| && b1[at..end] == b2[at..end] && IsInt16(pending)
    ensures Rest(b1, at, end, pending) == Rest(b2, at, end, pending)
    decreases end - at
  {
    var v := Reassemble(b1, at, end, pending);
    assert Reassemble(b2, at, end, pending) == v by {
      Locality(b1, b2, at, end, pending);
    }
    if v.Ready? {
      SubSlice(b1, b2, at, end, v.at + v.len, end);
      RestLocality(b1, b2, v.at + v.len, end, 0);
    }
  }

  /** Two buffers equal on at..end are equal on every part of it. */
  lemma SubSlice<T>(b1: seq<T>, b2: seq<T>, at: nat, end: nat, i: nat, j: nat)
    requires at <= i <= j <= end <= |b1| && end <= |b2| && b1[at..end] == b2[at..end]
    ensures b1[i..j] == b2[i..j]
  {
    forall m | 0 <= m < j - i ensures b1[i..j][m] == b2[i..j][m] {
      assert b1[i + m] == b1[at..end][i + m - at];
      assert b2[i + m] == b2[at..end][i + m - at];
    }
  }

  /** Dropping the first k bytes of the buffer keeps the packets and
      moves where they end k bytes back. */
  lemma PacketsTranslation(b: seq<byte>, k: nat, at: nat, end: int, pending: int)
    requires k <= at && k <= |b| && end <= |b| && IsInt16(pending)
    ensures Packets(b, at, end, pending) == Packets(b[k..], at - k, end - k, pending)
    ensures Rest(b, at, end, pending) == Move(Rest(b[k..], at - k, end - k, pending), k)
  {
    ListTranslation(b, k, at, end, pending);
    RestTranslation(b, k, at, end, pending);
  }

  lemma {:induction false} ListTranslation(b: seq<byte>, k: nat, at: nat, end: int, pending: int)
    requires k <= at && k <= |b| && end <= |b| && IsInt16(pending)
    ensures Packets(b, at, end, pending) == Packets(b[k..], at - k, end - k, pending)
    decreases end - at, 1
  {
    var r := Reassemble(b[k..], at - k, end - k, pending);
    assert Reassemble(b, at, end, pending) == Move(r, k) by {
      Translation(b, k, at, end, pending);
    }
    if r.Ready? {
      ReadyTranslation(b, k, at, end, pending);
    }
  }

  lemma {:induction false} ReadyTranslation(b: seq<byte>, k: nat, at: nat, end: int, pending: int)
    requires k <= at && k <= |b| && end <= |b| && IsInt16(pending)
    requires Reassemble(b[k..], at - k, end - k, pending).Ready?
    requires Reassemble(b, at, end, pending) == Move(Reassemble(b[k..], at - k, end - k, pending), k)
    ensures Packets(b, at, end, pending) == Packets(b[k..], at - k, end - k, pending)
    decreases end - at, 0
  {
    var r := Reassemble(b[k..], at - k, end - k, pending);
    var a, n := r.at, r.len;
    assert Reassemble(b, at, end, pending) == Ready(a + k, n);
    assert b[a + k..a + k + n] == b[k..][a..a + n];
    assert Packets(b, a + k + n, end, 0) == Packets(b[k..], a + n, end - k, 0) by {
      ListTranslation(b, k, a + k + n, end, 0);
    }
    PacketsCongruence(b, at, end, pending, a + k, b[k..], at - k, end - k, pending, a, n);
  }

  /** Two "yes" verdicts for equal packets, followed by equal packets,
      give equal packets. */
  lemma PacketsCongruence(b1: seq<byte>, at1: nat, end1: int, p1: int, a1: nat,
                          b2: seq<byte>, at2: nat, end2: int, p2: int, a2: nat, n: nat)
    requires end1 <= |b1| && IsInt16(p1) && end2 <= |b2| && IsInt16(p2)
    requires Reassemble(b1, at1, end1, p1) == Ready(a1, n) && Reassemble(b2, at2, end2, p2) == Ready(a2, n)
    requires b1[a1..a1 + n] == b2[a2..a2 + n]
    requires Packets(b1, a1 + n, end1, 0) == Packets(b2, a2 + n, end2, 0)
    ensures Packets(b1, at1, end1, p1) == Packets(b2, at2, end2, p2)
  {
    PacketsUnfold(b1, at1, end1, p1);
    PacketsUnfold(b2, at2, end2, p2);
  }

  lemma {:induction false} RestTranslation(b: seq<byte>, k: nat, at: nat, end: int, pending: int)
    requires k <= at && k <= |b| && end <= |b| && IsInt16(pending)
    ensures Rest(b, at, end, pending) == Move(Rest(b[k..], at - k, end - k, pending), k)
    decreases end - at
  {
    var v := Reassemble(b, at, end, pending);
    assert v == Move(Reassemble(b[k..], at - k, end - k, pending), k) by {
      Translation(b, k, at, end, pending);
    }
    if v.Ready? {
      RestTranslation(b, k, v.at + v.len, end, 0);
    }
  }

  /** Where the packets end, has_packet says "no" again without moving. */
  lemma {:induction false} RestStuck(b: seq<byte>, at: nat, end: int, pending: int)
    requires end <= |b| && IsInt16(pending)
    ensures var f := Rest(b, at, end, pending);
      Reassemble(b, f.at, end, f.pending) == f
    decreases end - at
  {
    var v := Reassemble(b, at, end, pending);
    if v.Ready? {
      RestStuck(b, v.at + v.len, end, 0);
    } else {
      ReassembleStuck(b, at, end, pending);
    }
  }

  /** One poll at the level of packets: the packets of w + e are those
      of w, then those of what w leaves unconsumed followed by e, from the
      length left pending; and they end where the latter end, moved on. */
  lemma PollSplit(w: seq<byte>, e: seq<byte>, pending: int)
    requires IsInt16(pending)
    ensures var f := Rest(w, 0, |w|, pending);
      var t, r := w + e, w[f.at..] + e;
      && t[f.at..] == r && |r| == |t| - f.at
      && Packets(t, 0, |t|, pending) == Packets(w, 0, |w|, pending) + Packets(r, 0, |r|, f.pending)
      && Rest(t, 0, |t|, pending) == Move(Rest(r, 0, |r|, f.pending), f.at)
  {
    var f := Rest(w, 0, |w|, pending);
    var t, r, q := w + e, w[f.at..] + e, f.pending;
    assert t[f.at..] == r && |r| == |t| - f.at by {
      DropConcat(w, e, f.at);
    }
    assert w[0..|w|] == t[0..|w|];
    assert Packets(w, 0, |w|, pending) == Packets(t, 0, |w|, pending) by {
      ListLocality(w, t, 0, |w|, pending);
    }
    assert f == Rest(t, 0, |w|, pending) by {
      RestLocality(w, t, 0, |w|, pending);
    }
    assert Packets(t, 0, |t|, pending) == Packets(t, 0, |w|, pending) + Packets(t, f.at, |t|, q)
        && Rest(t, 0, |t|, pending) == Rest(t, f.at, |t|, q) by {
      PacketsResume(t, 0, |w|, |t|, pending);
    }
    Suffix(t, f.at, r, q);
  }

  /** The verdict and the packets from offset k of b are those of the
      suffix r = b[k..] from its start, k bytes further on. */
  lemma Suffix(b: seq<byte>, k: nat, r: seq<byte>, pending: int)
    requires k <= |b| && r == b[k..] && IsInt16(pending)
    ensures Reassemble(b, k, |b|, pending) == Move(Reassemble(r, 0, |r|, pending), k)
    ensures Packets(b, k, |b|, pending) == Packets(r, 0, |r|, pending)
    ensures Rest(b, k, |b|, pending) == Move(Rest(r, 0, |r|, pending), k)
  {
    assert |r| == |b| - k && k - k == 0;
    var w := Reassemble(r, 0, |r|, pending);
    assert Reassemble(b, k, |b|, pending) == Move(w, k) by {
      Translation(b, k, k, |b|, pending);
    }
    ListTranslation(b, k, k, |b|, pending);
    var v := Rest(r, 0, |r|, pending);
    assert Rest(b, k, |b|, pending) == Move(v, k) by {
      RestTranslation(b, k, k, |b|, pending);
    }
  }

  /** The bytes of several chunks one after the other. */
  function Concat(chunks: seq<seq<byte>>): seq<byte>
    decreases |chunks|
  {
    if chunks == [] then [] else chunks[0] + Concat(chunks[1..])
  }

  /** A receiver between polls: the packets it has taken, the readable
      bytes at the front of its read buffer and next_packet_size. */
  datatype Session = Session(packets: seq<seq<byte>>, window: seq<byte>, pending: int)

  /** A receiver that starts with the window u and the pending length,
      and for each chunk polls it in behind the window, takes packets
      while has_packet says "yes" and lets the "no" compact the window. */
  function Receive(u: seq<byte>, pending: int, chunks: seq<seq<byte>>): (r: Session)
    requires IsInt16(pending)
    ensures IsInt16(r.pending)
    ensures chunks == [] ==> r == Session([], u, pending)
    decreases |chunks|
  {
    if chunks == [] then Session([], u, pending)
    else
      var w := u + chunks[0];
      var f := Rest(w, 0, |w|, pending);
      var r := Receive(w[f.at..], f.pending, chunks[1..]);
      Session(Packets(w, 0, |w|, pending) + r.packets, r.window, r.pending)
  }

  /** Fragmentation invariance over any number of chunks: a receiver left
      by a "no" (the window u gives "no" with the reader at 0) that polls
      the chunks one by one takes exactly the packets of all the bytes at
      once, and its window is exactly what those bytes leave unconsumed
      after the last packet, with the length pending there; compaction
      loses nothing. */
  lemma {:induction false} ReceiveAll(u: seq<byte>, pending: int, chunks: seq<seq<byte>>)
    requires IsInt16(pending) && Reassemble(u, 0, |u|, pending) == Waiting(0, pending)
    ensures var t := u + Concat(chunks);
      var g := Rest(t, 0, |t|, pending);
      var r := Receive(u, pending, chunks);
      && r.packets == Packets(t, 0, |t|, pending)
      && r.window == t[g.at..] && r.pending == g.pending
    decreases |chunks|
  {
    var t := u + Concat(chunks);
    if chunks == [] {
      assert t == u;
    } else {
      var w, more := u + chunks[0], chunks[1..];
      var e := Concat(more);
      var f := Rest(w, 0, |w|, pending);
      var u', q := w[f.at..], f.pending;
      var t' := u' + e;
      assert t == w + e by {
        assert Concat(chunks) == chunks[0] + e;
      }
      assert Reassemble(u', 0, |u'|, q) == Waiting(0, q) by {
        RestStuck(w, 0, |w|, pending);
        Suffix(w, f.at, u', q);
      }
      var r' := Receive(u', q, more);
      var g' := Rest(t', 0, |t'|, q);
      assert r'.packets == Packets(t', 0, |t'|, q) && r'.window == t'[g'.at..] && r'.pending == g'.pending by {
        ReceiveAll(u', q, more);
      }
      assert Packets(t, 0, |t|, pending) == Packets(w, 0, |w|, pending) + Packets(t', 0, |t'|, q)
          && Rest(t, 0, |t|, pending) == Move(g', f.at) && t[f.at..] == t' by {
        PollSplit(w, e, pending);
      }
      assert Receive(u, pending, chunks) == Session(Packets(w, 0, |w|, pending) + r'.packets, r'.window, r'.pending);
      assert t'[g'.at..] == t[f.at + g'.at..];
    }
  }

  /** However the bytes are cut into chunks, a receiver that starts empty
      takes the same packets and keeps the same window. */
  lemma Fragmentation(chunks1: seq<seq<byte>>, chunks2: seq<seq<byte>>)
    requires Concat(chunks1) == Concat(chunks2)
    ensures Receive([], 0, chunks1) == Receive([], 0, chunks2)
  {
    ReceiveAll([], 0, chunks1);
    ReceiveAll([], 0, chunks2);
  }

  // ---------------------------------------------------------------------
  // Frames in, packets out

  lemma DeliverableCons(f: seq<byte>, frames: seq<seq<byte>>)
    requires 0 < |f| < 0x8000 && Deliverable(frames)
    ensures Deliverable([f] + frames)
  {
    forall i | 0 < i < |frames| + 1 ensures 0 < |([f] + frames)[i]| < 0x8000 {
      assert ([f] + frames)[i] == frames[i - 1];
    }
  }

  lemma DeliverableTail(frames: seq<seq<byte>>)
    requires Deliverable(frames) && frames != []
    ensures Deliverable(frames[1..])
  {
    forall i | 0 <= i < |frames[1..]| ensures 0 < |frames[1..][i]| < 0x8000 {
      assert frames[1..][i] == frames[i + 1];
    }
  }

  /** A slice equal to s splits where s does. */
  lemma SliceSplit<T>(b: seq<T>, at: nat, s: seq<T>, k: nat)
    requires at + |s| <= |b| && b[at..at + |s|] == s && k <= |s|
    ensures b[at..at + k] == s[..k] && b[at + k..at + |s|] == s[k..]
  {
    assert b[at..at + k] == b[at..at + |s|][..k];
    assert b[at + k..at + |s|] == b[at..at + |s|][k..];
  }

  lemma ConcatParts<T>(x: seq<T>, y: seq<T>)
    ensures (x + y)[..|x|] == x && (x + y)[|x|..] == y
  {
  }

  /** A stream starts with the frame of its first payload. */
  lemma StreamHead(b: seq<byte>, at: nat, frames: seq<seq<byte>>)
    requires frames != [] && at + |Stream(frames)| <= |b| && b[at..at + |Stream(frames)|] == Stream(frames)
    ensures var n, t := |frames[0]|, Stream(frames[1..]);
      && |Stream(frames)| == n + 2 + |t|
      && b[at..at + n + 2] == Frame(frames[0])
      && b[at + n + 2..at + |Stream(frames)|] == t
  {
    var s, h, t := Stream(frames), Frame(frames[0]), Stream(frames[1..]);
    assert s == h + t;
    ConcatParts(h, t);
    SliceSplit(b, at, s, |h|);
  }

  /** A complete frame at the reader is delivered as the first packet,
      and reading goes on right after it. */
  lemma FirstPacket(b: seq<byte>, at: nat, end: int, f: seq<byte>)
    requires at + |f| + 2 <= end <= |b| && b[at..at + |f| + 2] == Frame(f) && 0 < |f| < 0x8000
    ensures Packets(b, at, end, 0) == [f] + Packets(b, at + |f| + 2, end, 0)
  {
    var n := |f|;
    assert b[at + 2..at + 2 + n] == f by {
      assert b[at + 2..at + 2 + n] == b[at..at + n + 2][2..];
    }
    FrameRoundTrip(b, at, end, f, 0);
  }

  /** The frames of a stream b[at..stop] come out of has_packet in
      order, each with its payload, whatever follows them. */
  lemma {:induction false} StreamRoundTrip(b: seq<byte>, at: nat, stop: nat, end: int, frames: seq<seq<byte>>)
    requires Deliverable(frames)
    requires at <= stop <= end <= |b| && b[at..stop] == Stream(frames)
    ensures Packets(b, at, end, 0) == frames + Packets(b, stop, end, 0)
    decreases |frames|
  {
    if frames != [] {
      var f := frames[0];
      var p0, p1 := Packets(b, at, end, 0), Packets(b, at + |f| + 2, end, 0);
      var rest := Packets(b, stop, end, 0);
      assert p0 == [f] + p1 by {
        StreamHead(b, at, frames);
        FirstPacket(b, at, end, f);
      }
      assert p1 == frames[1..] + rest by {
        StreamHead(b, at, frames);
        DeliverableTail(frames);
        StreamRoundTrip(b, at + |f| + 2, stop, end, frames[1..]);
      }
      ConsAssoc(frames, p0, p1, rest);
    }
  }

  lemma ConsAssoc<T>(xs: seq<T>, p0: seq<T>, p1: seq<T>, rest: seq<T>)
    requires xs != [] && p0 == [xs[0]] + p1 && p1 == xs[1..] + rest
    ensures p0 == xs + rest
  {
    assert [xs[0]] + xs[1..] == xs;
  }

  /** Crypting keeps every payload's size. */
  lemma {:induction false} FramesSizes(s: KeyState, frames: seq<seq<byte>>)
    ensures |ApplyFrames(s, frames)| == |frames|
    ensures forall i :: 0 <= i < |frames| ==> |ApplyFrames(s, frames)[i]| == |frames[i]|
    decreases |frames|
  {
    if frames != [] {
      FramesSizes(Advance(s, |frames[0]|), frames[1..]);
      var c := ApplyFrames(s, frames);
      forall i | 0 <= i < |frames| ensures |c[i]| == |frames[i]| {
        if i > 0 {
          assert c[i] == ApplyFrames(Advance(s, |frames[0]|), frames[1..])[i - 1];
        }
      }
    }
  }

  /** End to end: payloads encrypted one after the other by a sender,
      framed, sent as one stream and decrypted in order by a receiver
      whose state was set up from the same key, come back unchanged. */
  lemma Delivery(s: KeyState, payloads: seq<seq<byte>>)
    requires Deliverable(payloads)
    ensures var w := Stream(ApplyFrames(s, payloads));
      ApplyFrames(s, Packets(w, 0, |w|, 0)) == payloads
  {
    var c := ApplyFrames(s, payloads);
    var w := Stream(c);
    FramesSizes(s, payloads);
    assert Deliverable(c);
    assert w[0..|w|] == w;
    StreamRoundTrip(w, 0, |w|, |w|, c);
    assert Packets(w, |w|, |w|, 0) == [];
    assert c + [] == c;
    FramesInvolution(s, payloads);
  }
}
