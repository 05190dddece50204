/** The RC4 (ARCFOUR) stream cipher of the connection object: a state of
    two running indices and a 256-entry table, a key schedule that builds
    the table from a secret, and a keystream XOR that advances the state
    one step per byte. The functions of this module say what the cipher
    computes; the class Rc4State is the source's in-place struct, and its
    two methods are proved to compute those functions. */
module Rc4 {
  import opened Wire

  type Table = m: seq<int> | |m| == 256 witness seq(256, i => i)

  /** The value of an rc4_state: indices x and y and the table m. */
  datatype KeyState = KeyState(x: int, y: int, m: Table)

  function Identity(): (t: Table)
    ensures forall i :: 0 <= i < 256 ==> t[i] == i
  {
    seq(256, i => i)
  }

  /** The table holds each of 0..255 exactly once. */
  ghost predicate IsPermutation(m: Table)
  {
    multiset(m) == multiset(Identity())
  }

  // ---------------------------------------------------------------------
  // Key schedule (rc4_setup)

  /** The locals of the second loop of rc4_setup: the table, the running
      index j and the key position k. */
  datatype Mixing = Mixing(m: Table, j: int, k: int)

  /** Round i of the second loop of rc4_setup: add m[i] and key[k] into
      j (mod 256), swap m[i] and m[j], and move k on, back to 0 at the end
      of the key. j stays a byte and k stays a position of the key. */
  function MixRound(key: seq<byte>, p: Mixing, i: int): (r: Mixing)
    requires 0 <= i < 256 && 0 <= p.k < |key|
    ensures 0 <= r.j < 256 && 0 <= r.k < |key|
  {
    var a := p.m[i];
    var j := (p.j + a + key[p.k] as int) % 256;
    var k := if p.k + 1 >= |key| then 0 else p.k + 1;
    Mixing(p.m[i := p.m[j]][j := a], j, k)
  }

  /** The locals after the first n rounds, starting from the identity
      table that the first loop of rc4_setup builds. */
  function Ksa(key: seq<byte>, n: nat): (p: Mixing)
    requires 1 <= |key| && n <= 256
    ensures 0 <= p.k < |key|
  {
    if n == 0 then Mixing(Identity(), 0, 0)
    else MixRound(key, Ksa(key, n - 1), n - 1)
  }

  /** The state rc4_setup leaves behind for a key: x = y = 0 and a table
      holding each of 0..255 exactly once. */
  function Schedule(key: seq<byte>): (r: KeyState)
    requires 1 <= |key|
    ensures r.x == 0 && r.y == 0
    ensures IsPermutation(r.m)
  {
    KsaPermutation(key, 256);
    KeyState(0, 0, Ksa(key, 256).m)
  }

  // ---------------------------------------------------------------------
  // Keystream (rc4_crypt)

  /** One round of the loop of rc4_crypt: advance x, add m[x] into y,
      swap m[x] and m[y]. It leaves x and y in 0..255, as the unsigned
      char indices of the source are. */
  function Next(s: KeyState): (r: KeyState)
    ensures 0 <= r.x < 256 && 0 <= r.y < 256
  {
    var x := (s.x + 1) % 256;
    var a := s.m[x];
    var y := (s.y + a) % 256;
    KeyState(x, y, s.m[x := s.m[y]][y := a])
  }

  /** The keystream byte that the round from s XORs into its data byte:
      the table entry at m[x] + m[y] after the swap, cut to 8 bits as the
      assignment to an unsigned char does. When the table is a
      permutation the entry is already a byte and the cut loses nothing. */
  function KeyByte(s: KeyState): (r: byte)
    ensures var n := Next(s); var e := n.m[(n.m[n.x] + n.m[n.y]) % 256];
      0 <= e < 256 ==> r as int == e
  {
    var n := Next(s);
    ByteOf(n.m[(n.m[n.x] + n.m[n.y]) % 256])
  }

  /** n rounds of a round function f from s. */
  function Iterate<S>(f: S -> S, s: S, n: nat): S
  {
    if n == 0 then s else f(Iterate(f, s, n - 1))
  }

  /** The outputs g of the states that n rounds of f start from. */
  function Emit<S, B>(f: S -> S, g: S -> B, s: S, n: nat): (r: seq<B>)
    ensures |r| == n
  {
    if n == 0 then [] else Emit(f, g, s, n - 1) + [g(Iterate(f, s, n - 1))]
  }

  /** The state after n rounds of rc4_crypt; after at least one round x
      and y are in 0..255. */
  function Advance(s: KeyState, n: nat): (r: KeyState)
    ensures n > 0 ==> 0 <= r.x < 256 && 0 <= r.y < 256
  {
    Iterate(Next, s, n)
  }

  /** The first n keystream bytes from s. */
  function Keystream(s: KeyState, n: nat): (ks: seq<byte>)
    ensures |ks| == n
  {
    Emit(Next, KeyByte, s, n)
  }

  function XorAll(d: seq<byte>, k: seq<byte>): (r: seq<byte>)
    requires |d| == |k|
    ensures |r| == |d|
  {
    seq(|d|, i requires 0 <= i < |d| => Xor(d[i], k[i]))
  }

  /** What rc4_crypt writes over `data` when it starts in state s. */
  function Apply(s: KeyState, data: seq<byte>): (r: seq<byte>)
    ensures |r| == |data|
  {
    XorAll(data, Keystream(s, |data|))
  }

  /** The frames of a direction crypted one after the other, each call
      starting where the previous one left the state. */
  function ApplyFrames(s: KeyState, frames: seq<seq<byte>>): (r: seq<seq<byte>>)
    ensures |r| == |frames|
    decreases |frames|
  {
    if frames == [] then []
    else [Apply(s, frames[0])] + ApplyFrames(Advance(s, |frames[0]|), frames[1..])
  }

  // ---------------------------------------------------------------------
  // Properties

  /** Swapping two entries keeps a permutation a permutation. */
  lemma SwapPermutation(m: Table, i: int, j: int)
    requires 0 <= i < 256 && 0 <= j < 256
    requires IsPermutation(m)
    ensures IsPermutation(m[i := m[j]][j := m[i]])
  {
    var m1 := m[i := m[j]];
    assert multiset(m1) == multiset(m) - multiset{m[i]} + multiset{m[j]};
    var m2 := m1[j := m[i]];
    assert multiset(m2) == multiset(m1) - multiset{m1[j]} + multiset{m[i]};
  }

  /** Every prefix of the key schedule keeps the table a permutation and
      j a byte. */
  lemma {:induction false} KsaPermutation(key: seq<byte>, n: nat)
    requires 1 <= |key| && n <= 256
    ensures IsPermutation(Ksa(key, n).m)
    ensures 0 <= Ksa(key, n).j < 256
  {
    if n > 0 {
      KsaPermutation(key, n - 1);
      var p := Ksa(key, n - 1);
      var j := (p.j + p.m[n - 1] + key[p.k] as int) % 256;
      SwapPermutation(p.m, n - 1, j);
    }
  }

  /** A permutation of 0..255 holds only values in 0..255, and each of them. */
  lemma PermutationValues(m: Table)
    requires IsPermutation(m)
    ensures forall i :: 0 <= i < 256 ==> 0 <= m[i] < 256
    ensures forall v :: 0 <= v < 256 ==> v in m
  {
    var id := Identity();
    forall i | 0 <= i < 256 ensures 0 <= m[i] < 256 {
      assert m[i] in multiset(m);
      assert m[i] in multiset(id);
      assert m[i] in id;
    }
    forall v | 0 <= v < 256 ensures v in m {
      assert id[v] == v;
      assert v in multiset(id);
      assert v in multiset(m);
    }
  }

  /** A round keeps the table a permutation. */
  lemma NextInvariant(s: KeyState)
    requires IsPermutation(s.m)
    ensures IsPermutation(Next(s).m)
  {
    var x := (s.x + 1) % 256;
    var y := (s.y + s.m[x]) % 256;
    SwapPermutation(s.m, x, y);
  }

  /** Any number of rounds keeps the table a permutation, and after at
      least one round x and y are in 0..255. */
  lemma {:induction false} AdvanceInvariant(s: KeyState, n: nat)
    requires IsPermutation(s.m)
    ensures IsPermutation(Advance(s, n).m)
    ensures n > 0 ==> 0 <= Advance(s, n).x < 256 && 0 <= Advance(s, n).y < 256
  {
    if n > 0 {
      AdvanceInvariant(s, n - 1);
      NextInvariant(Advance(s, n - 1));
    }
  }

  lemma {:induction false} IterateAdd<S>(f: S -> S, s: S, a: nat, b: nat)
    ensures Iterate(f, s, a + b) == Iterate(f, Iterate(f, s, a), b)
  {
    if b > 0 {
      IterateAdd(f, s, a, b - 1);
    }
  }

  lemma {:induction false} EmitAdd<S, B>(f: S -> S, g: S -> B, s: S, a: nat, b: nat)
    ensures Emit(f, g, s, a + b) == Emit(f, g, s, a) + Emit(f, g, Iterate(f, s, a), b)
  {
    if b > 0 {
      EmitAdd(f, g, s, a, b - 1);
      IterateAdd(f, s, a, b - 1);
    }
  }

  /** Running a + b rounds is running a rounds and then b more. */
  lemma AdvanceAdd(s: KeyState, a: nat, b: nat)
    ensures Advance(s, a + b) == Advance(Advance(s, a), b)
  {
    IterateAdd(Next, s, a, b);
  }

  /** The keystream of a + b rounds is that of the first a rounds
      followed by that of b rounds from the state they leave. */
  lemma KeystreamAdd(s: KeyState, a: nat, b: nat)
    ensures Keystream(s, a + b) == Keystream(s, a) + Keystream(Advance(s, a), b)
  {
    EmitAdd(Next, KeyByte, s, a, b);
  }

  /** Crypting from equal states inverts itself: the keystream depends on
      the state only, so decrypting with the state that encrypted gives
      the plaintext back. */
  lemma ApplyInvolution(s: KeyState, data: seq<byte>)
    ensures Apply(s, Apply(s, data)) == data
  {
    var k := Keystream(s, |data|);
    forall i | 0 <= i < |data| ensures Apply(s, Apply(s, data))[i] == data[i] {
      XorInvolution(data[i], k[i]);
    }
  }

  /** Crypting d1 + d2 in one call gives the same bytes as crypting d1 and
      then d2 with the state the first call left. */
  lemma ApplySplit(s: KeyState, d1: seq<byte>, d2: seq<byte>)
    ensures Apply(s, d1 + d2) == Apply(s, d1) + Apply(Advance(s, |d1|), d2)
  {
    var k1, k2 := Keystream(s, |d1|), Keystream(Advance(s, |d1|), |d2|);
    var n := |d1| + |d2|;
    assert |d1 + d2| == n;
    KeystreamAdd(s, |d1|, |d2|);
    var ks := Keystream(s, n);
    assert ks == k1 + k2;
    XorAllConcat(d1, k1, d2, k2);
    assert Apply(s, d1 + d2) == XorAll(d1 + d2, ks);
    assert Apply(s, d1) == XorAll(d1, k1);
    assert Apply(Advance(s, |d1|), d2) == XorAll(d2, k2);
  }

  /** Direction isolation: two states derived alike, one encrypting a
      sequence of frames of any sizes and the other decrypting them in
      the same order, give back every frame. */
  lemma {:induction false} FramesInvolution(s: KeyState, frames: seq<seq<byte>>)
    ensures ApplyFrames(s, ApplyFrames(s, frames)) == frames
    decreases |frames|
  {
    if frames != [] {
      var c := ApplyFrames(s, frames);
      ApplyInvolution(s, frames[0]);
      assert c[0] == Apply(s, frames[0]);
      assert c[1..] == ApplyFrames(Advance(s, |frames[0]|), frames[1..]);
      FramesInvolution(Advance(s, |frames[0]|), frames[1..]);
    }
  }

  lemma XorAllConcat(d1: seq<byte>, k1: seq<byte>, d2: seq<byte>, k2: seq<byte>)
    requires |d1| == |k1| && |d2| == |k2|
    ensures XorAll(d1 + d2, k1 + k2) == XorAll(d1, k1) + XorAll(d2, k2)
  {
    var l, r := XorAll(d1 + d2, k1 + k2), XorAll(d1, k1) + XorAll(d2, k2);
    forall i | 0 <= i < |l| ensures l[i] == r[i] {
      if i < |d1| {
        assert (d1 + d2)[i] == d1[i] && (k1 + k2)[i] == k1[i];
      } else {
        assert (d1 + d2)[i] == d2[i - |d1|] && (k1 + k2)[i] == k2[i - |d1|];
      }
    }
  }

  lemma PrefixSnoc<T>(d: seq<T>, i: nat)
    requires i < |d|
    ensures d[..i + 1] == d[..i] + [d[i]]
  {
  }

  lemma AdvanceSnoc(s: KeyState, i: nat)
    ensures Advance(s, i + 1) == Next(Advance(s, i))
  {
  }

  /** One round from s with x and y as the round computes them: the
      swap, and the keystream byte at the sum of the swapped entries. */
  lemma RoundFacts(s: KeyState, x: int, y: int)
    requires x == (s.x + 1) % 256 && y == (s.y + s.m[x]) % 256
    ensures Next(s) == KeyState(x, y, s.m[x := s.m[y]][y := s.m[x]])
    ensures KeyByte(s) == ByteOf(s.m[x := s.m[y]][y := s.m[x]][(s.m[x] + s.m[y]) % 256])
  {
  }

  /** Crypting one more byte appends that byte XORed with the keystream
      byte of the next round. */
  lemma ApplySnoc(s: KeyState, d: seq<byte>, b: byte)
    ensures Apply(s, d + [b]) == Apply(s, d) + [Xor(b, KeyByte(Advance(s, |d|)))]
  {
    ApplySplit(s, d, [b]);
    var t := Advance(s, |d|);
    assert Keystream(t, 1) == [KeyByte(t)];
  }

  // ---------------------------------------------------------------------
  // The struct rc4_state, updated in place

  class Rc4State {
    var x: int
    var y: int
    const m: array<int>

    /** The source leaves a fresh state uninitialised until rc4_setup. */
    constructor ()
      ensures fresh(m) && m.Length == 256
    {
      x, y := 0, 0;
      m := new int[256];
    }

    ghost function Value(): KeyState
      reads this, m
      requires m.Length == 256
    {
      KeyState(x, y, m[..])
    }

    /** rc4_setup: fill the table with the identity, then run the 256
        rounds of the key schedule. The key must hold at least one byte,
        since the first round reads key[0]. */
    method Setup(key: seq<byte>)
      requires m.Length == 256 && 1 <= |key|
      modifies this, m
      ensures Value() == Schedule(key)
    {
      for i := 0 to 256
        invariant forall k :: 0 <= k < i ==> m[k] == k
      {
        m[i] := i;
      }
      assert m[..] == Identity();
      var j, k := 0, 0;
      for i := 0 to 256
        invariant Mixing(m[..], j, k) == Ksa(key, i)
      {
        ghost var p := Mixing(m[..], j, k);
        var a := m[i];
        j := (j + a + key[k] as int) % 256;
        m[i] := m[j];
        m[j] := a;
        assert m[..] == p.m[i := p.m[j]][j := a];
        k := k + 1;
        if k >= |key| {
          k := 0;
        }
        assert Mixing(m[..], j, k) == MixRound(key, p, i);
      }
      x, y := 0, 0;
    }

    /** The body of the loop of rc4_crypt, on the locals x and y: one
        round on the table, returning the keystream byte it yields. */
    method Round(cx: int, cy: int) returns (nx: int, ny: int, kb: byte)
      requires m.Length == 256
      modifies m
      ensures KeyState(nx, ny, m[..]) == Next(KeyState(cx, cy, old(m[..])))
      ensures kb == KeyByte(KeyState(cx, cy, old(m[..])))
    {
      ghost var s := KeyState(cx, cy, m[..]);
      nx := (cx + 1) % 256;
      var a := m[nx];
      ny := (cy + a) % 256;
      var b := m[ny];
      m[nx] := b;
      m[ny] := a;
      assert m[..] == s.m[nx := b][ny := a];
      RoundFacts(s, nx, ny);
      kb := ByteOf(m[(a + b) % 256]);
    }

    /** rc4_crypt: run one round per data byte and XOR each byte with the
        keystream byte of its round; x and y are stored back at the end. */
    method Crypt(data: seq<byte>) returns (out: seq<byte>)
      requires m.Length == 256
      modifies this, m
      ensures Value() == Advance(old(Value()), |data|)
      ensures out == Apply(old(Value()), data)
    {
      ghost var s0 := Value();
      var cx, cy := x, y;
      out := [];
      for i := 0 to |data|
        invariant KeyState(cx, cy, m[..]) == Advance(s0, i)
        invariant out == Apply(s0, data[..i])
      {
        AdvanceSnoc(s0, i);
        ghost var k := KeyByte(Advance(s0, i));
        PrefixSnoc(data, i);
        ApplySnoc(s0, data[..i], data[i]);
        assert Apply(s0, data[..i + 1]) == out + [Xor(data[i], k)];
        var kb;
        cx, cy, kb := Round(cx, cy);
        assert kb == k;
        out := out + [Xor(data[i], kb)];
      }
      assert data[..|data|] == data;
      x, y := cx, cy;
    }
  }
}
