/** WebSocket payload masking (include/websocketpp/frame.hpp) on a 64-bit
    little-endian machine: the word-by-word forms refine byte-by-byte masking. */
module Mask {

  /** Machine integers as their bits, lowest first. */
  type Bits = seq<bool>
  type Byte = b: Bits | |b| == 8 witness Zeros(8)
  type Word32 = w: Bits | |w| == 32 witness Zeros(32)
  type Word = w: Bits | |w| == 64 witness Zeros(64)

  function Zeros(n: nat): (z: Bits)
    ensures |z| == n && forall i :: 0 <= i < n ==> !z[i]
  {
    seq(n, _ => false)
  }

  /** `a ^ b` */
  function Xor(a: Bits, b: Bits): (c: Bits)
    requires |a| == |b|
    ensures |c| == |a| && forall i :: 0 <= i < |a| ==> c[i] == (a[i] != b[i])
  {
    seq(|a|, i requires 0 <= i < |a| => a[i] != b[i])
  }

  /** `a | b` */
  function Or(a: Bits, b: Bits): (c: Bits)
    requires |a| == |b|
    ensures |c| == |a| && forall i :: 0 <= i < |a| ==> c[i] == (a[i] || b[i])
  {
    seq(|a|, i requires 0 <= i < |a| => a[i] || b[i])
  }

  /** `w << n` and `w >> n` */
  function ShiftLeft(w: Bits, n: nat): (v: Bits)
    requires n <= |w|
    ensures |v| == |w|
  {
    Zeros(n) + w[..|w| - n]
  }

  function ShiftRight(w: Bits, n: nat): (v: Bits)
    requires n <= |w|
    ensures |v| == |w|
  {
    w[n..] + Zeros(n)
  }

  function PrepareMaskingKey(key: Word32): Word {
    var wide := key + Zeros(32);
    Or(ShiftLeft(wide, 32), wide)
  }

  function CircshiftPreparedKey(prepared: Word, offset: nat): Word
    requires offset < 8
  {
    if offset == 0 then prepared
    else Or(ShiftRight(prepared, offset * 8), ShiftLeft(prepared, (8 - offset) * 8))
  }

  /** Byte `i` of an integer in memory. */
  function ByteAt(w: Bits, i: nat): Byte
    requires 8 * i + 8 <= |w|
  {
    w[8 * i..8 * i + 8]
  }

  /** The bytes of an integer in memory, lowest first. */
  function BytesOf(w: Bits): (bytes: seq<Byte>)
    requires |w| % 8 == 0
    ensures |bytes| == |w| / 8
  {
    seq(|w| / 8, i requires 0 <= i < |w| / 8 => ByteAt(w, i))
  }

  /** The integer that bytes of memory spell. */
  function Spelled(s: seq<Byte>): (w: Bits)
    ensures |w| == 8 * |s|
  {
    if s == [] then []
    else
      var first: Bits := s[0];
      first + Spelled(s[1..])
  }

  /** Both halves of a prepared key are the key. */
  lemma PreparedTwice(key: Word32)
    ensures PrepareMaskingKey(key) == key + key
  {
  }

  /** Shifting a prepared key rotates it. */
  lemma CircshiftRotates(p: Word, offset: nat)
    requires offset < 8
    ensures CircshiftPreparedKey(p, offset) == p[8 * offset..] + p[..8 * offset]
  {
  }

  lemma {:induction false} SpelledAt(s: seq<Byte>, i: nat)
    requires i < |s|
    ensures ByteAt(Spelled(s), i) == s[i]
  {
    if i > 0 {
      SpelledAt(s[1..], i - 1);
      assert Spelled(s)[8..] == Spelled(s[1..]);
      assert ByteAt(Spelled(s), i) == Spelled(s)[8..][8 * (i - 1)..8 * (i - 1) + 8];
    }
  }

  lemma XorAt(v: Word, w: Word, i: nat)
    requires i < 8
    ensures ByteAt(Xor(v, w), i) == Xor(ByteAt(v, i), ByteAt(w, i))
  {
  }

  lemma RotatedByte(p: Word, n: nat, k: nat)
    requires n <= 56 && k <= 56 && (n + k <= 56 || n + k >= 64)
    ensures (p[n..] + p[..n])[k..k + 8] == if n + k < 64 then p[n + k..n + k + 8] else p[n + k - 64..n + k - 56]
  {
  }

  /** An index below 16 taken around eight positions. */
  function Around(i: nat): nat
    requires i < 16
  {
    if i < 8 then i else i - 8
  }

  /** Byte `j` of `x` is byte `j + offset` of `p`, cyclically. */
  predicate IsRotation<T(==)>(x: seq<T>, p: seq<T>, offset: nat)
    requires offset < 8
  {
    && |x| == |p| == 8
    && forall j :: 0 <= j < 8 ==> x[j] == p[Around(j + offset)]
  }

  lemma RotatedBytes(p: Word, offset: nat)
    requires offset < 8
    ensures IsRotation(BytesOf(CircshiftPreparedKey(p, offset)), BytesOf(p), offset)
  {
    CircshiftRotates(p, offset);
    forall j | 0 <= j < 8
      ensures ByteAt(p[8 * offset..] + p[..8 * offset], j) == ByteAt(p, Around(j + offset))
    {
      RotatedByte(p, 8 * offset, 8 * j);
    }
  }

  // Cyclic masking, for any way of combining an element with a key element.

  /** Combines each element with the key, cyclically from position `at`. */
  function Zip<T>(data: seq<T>, key: seq<T>, at: nat, f: (T, T) -> T): (out: seq<T>)
    requires |key| > 0
    ensures |out| == |data|
  {
    if data == [] then [] else [f(data[0], key[at % |key|])] + Zip(data[1..], key, at + 1, f)
  }

  lemma {:induction false} ZipConcat<T>(a: seq<T>, b: seq<T>, key: seq<T>, at: nat, f: (T, T) -> T)
    requires |key| > 0
    ensures Zip(a + b, key, at, f) == Zip(a, key, at, f) + Zip(b, key, at + |a|, f)
  {
    if a == [] {
      assert a + b == b;
    } else {
      assert (a + b)[1..] == a[1..] + b;
      ZipConcat(a[1..], b, key, at + 1, f);
    }
  }

  lemma ZipAppend<T>(a: seq<T>, x: T, key: seq<T>, at: nat, f: (T, T) -> T)
    requires |key| > 0
    ensures Zip(a + [x], key, at, f) == Zip(a, key, at, f) + [f(x, key[(at + |a|) % |key|])]
  {
    ZipConcat(a, [x], key, at, f);
  }

  lemma {:induction false} ZipAt<T>(data: seq<T>, key: seq<T>, at: nat, f: (T, T) -> T, j: nat)
    requires |key| > 0 && j < |data|
    ensures Zip(data, key, at, f)[j] == f(data[j], key[(at + j) % |key|])
  {
    if j > 0 { ZipAt(data[1..], key, at + 1, f, j - 1); }
  }

  lemma SmallRemainder(j: nat, n: nat)
    requires j < n
    ensures j % n == j
  {
  }

  /** Eight elements combined one by one with eight key elements. */
  lemma ZipOfEight<T>(x: seq<T>, data: seq<T>, key: seq<T>, f: (T, T) -> T)
    requires |x| == |data| == |key| == 8
    requires forall j :: 0 <= j < 8 ==> x[j] == f(data[j], key[j])
    ensures x == Zip(data, key, 0, f)
  {
    forall j | 0 <= j < 8 ensures x[j] == Zip(data, key, 0, f)[j] {
      ZipAt(data, key, 0, f, j);
      SmallRemainder(j, |key|);
    }
  }

  lemma NextPhase(at: nat, bt: nat)
    requires at % 8 == bt % 8
    ensures (at + 1) % 8 == (bt + 1) % 8
  {
  }

  lemma {:induction false} ZipSamePhase<T>(data: seq<T>, key: seq<T>, at: nat, bt: nat, f: (T, T) -> T)
    requires |key| == 8 && at % 8 == bt % 8
    ensures Zip(data, key, at, f) == Zip(data, key, bt, f)
  {
    if data != [] {
      NextPhase(at, bt);
      ZipSamePhase(data[1..], key, at + 1, bt + 1, f);
    }
  }

  lemma ZipPieces<T>(a: seq<T>, b: seq<T>, key: seq<T>, f: (T, T) -> T)
    requires |key| == 8 && |a| % 8 == 0
    ensures Zip(a, key, 0, f) + Zip(b, key, 0, f) == Zip(a + b, key, 0, f)
  {
    ZipConcat(a, b, key, 0, f);
    ZipSamePhase(b, key, |a|, 0, f);
  }

  lemma {:induction false} ZipTwice<T(!new)>(data: seq<T>, key: seq<T>, at: nat, f: (T, T) -> T)
    requires |key| > 0 && forall a: T, b: T :: f(f(a, b), b) == a
    ensures Zip(Zip(data, key, at, f), key, at, f) == data
  {
    if data != [] {
      ZipTwice(data[1..], key, at + 1, f);
    }
  }

  /** A rotating key: `k`, of one or two key lengths, is `key` from position `at` on. */
  predicate Carries<T(==)>(k: seq<T>, key: seq<T>, at: nat) {
    && |key| == 4 && (|k| == 4 || |k| == 8)
    && forall j :: 0 <= j < |k| ==> k[j] == key[(at + j) % 4]
  }

  lemma CarriesAt<T>(k: seq<T>, key: seq<T>, at: nat, i: nat)
    requires Carries(k, key, at)
    ensures k[i % |k|] == key[(at + i) % 4]
  {
    assert (at + i % |k|) % 4 == (at + i) % 4;
  }

  /** Masking with a rotated key from the start is masking with the key from its position. */
  lemma {:induction false} ZipCarries<T>(data: seq<T>, k: seq<T>, key: seq<T>, at: nat, i: nat, f: (T, T) -> T)
    requires Carries(k, key, at)
    ensures Zip(data, k, i, f) == Zip(data, key, at + i, f)
  {
    if data != [] {
      CarriesAt(k, key, at, i);
      ZipCarries(data[1..], k, key, at, i + 1, f);
    }
  }

  lemma SamePhase(at: nat, j: nat, offset: nat, n: nat)
    requires j < 8 && offset < 8 && offset % 4 == n % 4
    ensures (at + Around(j + offset)) % 4 == (at + n + j) % 4
  {
    var b := n / 4 - offset / 4;
    assert n == offset + 4 * b;
  }

  /** A prepared key returned after `n` more bytes stands `n` positions further on. */
  lemma RotationCarries<T>(x: seq<T>, p: seq<T>, key: seq<T>, at: nat, n: nat, offset: nat)
    requires offset < 8 && offset % 4 == n % 4
    requires IsRotation(x, p, offset) && Carries(p, key, at)
    ensures Carries(x, key, at + n)
  {
    forall j | 0 <= j < 8 ensures x[j] == key[(at + n + j) % 4] {
      SamePhase(at, j, offset, n);
    }
  }

  lemma FirstHalfCarries<T>(k: seq<T>, key: seq<T>, at: nat)
    requires Carries(k, key, at) && |k| == 8
    ensures Carries(k[..4], key, at)
  {
  }

  lemma DoubledCarries<T>(k: seq<T>, key: seq<T>)
    requires |k| == 8 && |key| == 4
    requires forall j :: 0 <= j < 4 ==> k[j] == key[j] && k[j + 4] == key[j]
    ensures Carries(k, key, 0)
  {
    forall j | 0 <= j < 8 ensures k[j] == key[(0 + j) % 4] {
      if j >= 4 { assert k[(j - 4) + 4] == key[j - 4]; }
    }
  }

  // Writing the result over a buffer.

  /** `dst` with `out` written over it from `start` on. */
  function Overwritten<T>(dst: seq<T>, start: nat, out: seq<T>): (r: seq<T>)
    requires start + |out| <= |dst|
    ensures |r| == |dst|
    decreases |out|
  {
    if out == [] then dst else Overwritten(dst[start := out[0]], start + 1, out[1..])
  }

  lemma {:induction false} OverwrittenIs<T>(dst: seq<T>, start: nat, out: seq<T>)
    requires start + |out| <= |dst|
    ensures Overwritten(dst, start, out) == dst[..start] + out + dst[start + |out|..]
    decreases |out|
  {
    if out != [] {
      OverwrittenIs(dst[start := out[0]], start + 1, out[1..]);
      assert out == [out[0]] + out[1..];
    }
  }

  lemma {:induction false} OverwrittenTwice<T>(dst: seq<T>, start: nat, a: seq<T>, b: seq<T>)
    requires start + |a| + |b| <= |dst|
    ensures Overwritten(Overwritten(dst, start, a), start + |a|, b) == Overwritten(dst, start, a + b)
    decreases |a|
  {
    if a == [] {
      assert a + b == b;
    } else {
      assert (a + b)[1..] == a[1..] + b;
      OverwrittenTwice(dst[start := a[0]], start + 1, a[1..], b);
    }
  }

  lemma OverwrittenNext<T>(dst: seq<T>, start: nat, out: seq<T>, x: T)
    requires start + |out| < |dst|
    ensures Overwritten(dst, start, out)[start + |out| := x] == Overwritten(dst, start, out + [x])
  {
    OverwrittenTwice(dst, start, out, [x]);
  }

  /** One more byte of a byte loop. */
  lemma BytesNext<T>(dst: seq<T>, src: seq<T>, start: nat, i: nat, k: seq<T>, at: nat, f: (T, T) -> T)
    requires |k| > 0 && start + i < |src| && start + i < |dst|
    ensures Overwritten(dst, start, Zip(src[start..start + i], k, at, f))
              [start + i := f(src[start + i], k[(at + i) % |k|])]
         == Overwritten(dst, start, Zip(src[start..start + i + 1], k, at, f))
  {
    var out := Zip(src[start..start + i], k, at, f);
    assert src[start..start + i + 1] == src[start..start + i] + [src[start + i]];
    ZipAppend(src[start..start + i], src[start + i], k, at, f);
    OverwrittenNext(dst, start, out, f(src[start + i], k[(at + i) % |k|]));
  }

  lemma SplitAt<T>(s: seq<T>, m: nat, n: nat)
    requires m <= n <= |s|
    ensures s[..n] == s[..m] + s[m..n]
  {
  }

  /** The bytes from `m` on, after the whole words before them. */
  lemma AfterWords<T>(dst: seq<T>, src: seq<T>, m: nat, n: nat, k: seq<T>, f: (T, T) -> T)
    requires |k| == 8 && m % 8 == 0 && m <= n <= |src| && n <= |dst|
    ensures Overwritten(Overwritten(dst, 0, Zip(src[..m], k, 0, f)), m, Zip(src[m..n], k, 0, f))
         == Overwritten(dst, 0, Zip(src[..n], k, 0, f))
  {
    SplitAt(src, m, n);
    ZipPieces(src[..m], src[m..n], k, f);
    OverwrittenTwice(dst, 0, Zip(src[..m], k, 0, f), Zip(src[m..n], k, 0, f));
  }

  // Masking of WebSocket payloads.

  const XOR: (Byte, Byte) -> Byte := (a: Byte, b: Byte) => Xor(a, b)

  /** The transformation of section 5.3 of RFC 6455, from position `at` of the payload. */
  function Masked(data: seq<Byte>, key: Word32, at: nat): (out: seq<Byte>)
    ensures |out| == |data|
  {
    Zip(data, BytesOf(key), at, XOR)
  }

  lemma HalvesAt(key: Word32, k: nat)
    requires k <= 24
    ensures (key + key)[k..k + 8] == key[k..k + 8] == (key + key)[k + 32..k + 40]
  {
  }

  lemma PreparedCarries(key: Word32)
    ensures Carries(BytesOf(PrepareMaskingKey(key)), BytesOf(key), 0)
  {
    PreparedTwice(key);
    forall j | 0 <= j < 4
      ensures ByteAt(key + key, j) == ByteAt(key, j) && ByteAt(key + key, j + 4) == ByteAt(key, j)
    {
      HalvesAt(key, 8 * j);
    }
    DoubledCarries(BytesOf(PrepareMaskingKey(key)), BytesOf(key));
  }

  lemma PreparedZip(data: seq<Byte>, key: Word32)
    ensures Zip(data, BytesOf(PrepareMaskingKey(key)), 0, XOR) == Masked(data, key, 0)
  {
    PreparedCarries(key);
    ZipCarries(data, BytesOf(PrepareMaskingKey(key)), BytesOf(key), 0, 0, XOR);
  }

  lemma ShiftCarries(p: Word, key: Word32, at: nat, n: nat, offset: nat)
    requires Carries(BytesOf(p), BytesOf(key), at)
    requires offset < 8 && offset % 4 == n % 4
    ensures Carries(BytesOf(CircshiftPreparedKey(p, offset)), BytesOf(key), at + n)
  {
    RotatedBytes(p, offset);
    RotationCarries(BytesOf(CircshiftPreparedKey(p, offset)), BytesOf(p), BytesOf(key), at, n, offset);
  }

  /** What `word_mask_circ` and `byte_mask_circ` write, and the key they return. */
  function Circ(byWord: bool, data: seq<Byte>, prepared: Word): (seq<Byte>, Word) {
    if byWord then
      (Zip(data, BytesOf(prepared), 0, XOR), CircshiftPreparedKey(prepared, |data| % 8))
    else
      (Zip(data, BytesOf(prepared)[..4], 0, XOR), CircshiftPreparedKey(prepared, |data| % 4))
  }

  /** Masking with the rotated key from its start, in either length. */
  lemma ZipIsMasked(data: seq<Byte>, k: seq<Byte>, key: Word32, at: nat)
    requires Carries(k, BytesOf(key), at)
    ensures Zip(data, k, 0, XOR) == Masked(data, key, at)
  {
    ZipCarries(data, k, BytesOf(key), at, 0, XOR);
    assert at + 0 == at;
  }

  lemma Remainders(n: nat)
    ensures n % 8 % 4 == n % 4 == n % 4 % 4
  {
  }

  /** One call of either streaming form agrees with the byte-by-byte form. */
  lemma CircIsMasked(byWord: bool, data: seq<Byte>, prepared: Word, key: Word32, at: nat)
    requires Carries(BytesOf(prepared), BytesOf(key), at)
    ensures Circ(byWord, data, prepared).0 == Masked(data, key, at)
    ensures Carries(BytesOf(Circ(byWord, data, prepared).1), BytesOf(key), at + |data|)
  {
    var n := |data|;
    Remainders(n);
    if byWord {
      ZipIsMasked(data, BytesOf(prepared), key, at);
      ShiftCarries(prepared, key, at, n, n % 8);
    } else {
      FirstHalfCarries(BytesOf(prepared), BytesOf(key), at);
      ZipIsMasked(data, BytesOf(prepared)[..4], key, at);
      ShiftCarries(prepared, key, at, n, n % 4);
    }
  }

  /** A piece of the payload and the streaming form chosen for it. */
  datatype Piece = Piece(byWord: bool, data: seq<Byte>)

  function Payload(pieces: seq<Piece>): seq<Byte> {
    if pieces == [] then [] else pieces[0].data + Payload(pieces[1..])
  }

  /** Masks the pieces in turn, feeding each returned key into the next call. */
  function MaskStream(pieces: seq<Piece>, prepared: Word): seq<Byte> {
    if pieces == [] then []
    else
      var (out, next) := Circ(pieces[0].byWord, pieces[0].data, prepared);
      out + MaskStream(pieces[1..], next)
  }

  lemma MaskedConcat(a: seq<Byte>, b: seq<Byte>, key: Word32, at: nat)
    ensures Masked(a + b, key, at) == Masked(a, key, at) + Masked(b, key, at + |a|)
  {
    ZipConcat(a, b, BytesOf(key), at, XOR);
  }

  lemma {:induction false} StreamFrom(pieces: seq<Piece>, prepared: Word, key: Word32, at: nat)
    requires Carries(BytesOf(prepared), BytesOf(key), at)
    ensures MaskStream(pieces, prepared) == Masked(Payload(pieces), key, at)
  {
    if pieces != [] {
      var p := pieces[0];
      CircIsMasked(p.byWord, p.data, prepared, key, at);
      StreamFrom(pieces[1..], Circ(p.byWord, p.data, prepared).1, key, at + |p.data|);
      MaskedConcat(p.data, Payload(pieces[1..]), key, at);
    }
  }

  /** For every cut of the payload and every mix of the two streaming forms, the
      result is byte-by-byte masking of the whole. */
  lemma StreamIsMasked(pieces: seq<Piece>, key: Word32)
    ensures MaskStream(pieces, PrepareMaskingKey(key)) == Masked(Payload(pieces), key, 0)
  {
    PreparedCarries(key);
    StreamFrom(pieces, PrepareMaskingKey(key), key, 0);
  }

  /** Unmasking is masking again, at the same position. */
  lemma MaskTwice(data: seq<Byte>, key: Word32, at: nat)
    ensures Masked(Masked(data, key, at), key, at) == data
  {
    forall a: Byte, b: Byte ensures XOR(XOR(a, b), b) == a {
      assert Xor(Xor(a, b), b) == a;
    }
    ZipTwice(data, BytesOf(key), at, XOR);
  }

  lemma XorBit(a: Byte, b: Byte, i: nat)
    requires i < 8
    ensures XOR(a, b)[i] == (a[i] != b[i])
  {
    assert XOR(a, b) == Xor(a, b);
  }

  /** The statement of the RFC, bit by bit: an octet of the payload is flipped where the
      octet of the key at its position modulo 4 has a bit set. */
  lemma MaskedBit(data: seq<Byte>, key: Word32, at: nat, j: nat, i: nat)
    requires j < |data| && i < 8
    ensures Masked(data, key, at)[j][i] == (data[j][i] != key[8 * ((at + j) % 4) + i])
  {
    ZipAt(data, BytesOf(key), at, XOR, j);
    XorBit(data[j], ByteAt(key, (at + j) % 4), i);
  }

  // The buffer forms. Input and output may be the same buffer.

  /** `output[i] = input[i] ^ k` */
  method MaskOne(input: array<Byte>, output: array<Byte>, i: nat, k: Byte)
    requires i < input.Length && i < output.Length
    modifies output
    ensures output[..] == old(output[..])[i := XOR(old(input[i]), k)]
    ensures forall j :: i < j < input.Length ==> input[j] == old(input[j])
  {
    output[i] := Xor(input[i], k);
  }

  /** The byte loops of the masking functions: masks `length` bytes from `start` with
      the key bytes `k`, taken cyclically from position `at`. */
  method MaskBytes(input: array<Byte>, output: array<Byte>, start: nat, length: nat, k: seq<Byte>, at: nat)
    requires start + length <= input.Length && start + length <= output.Length && |k| > 0
    modifies output
    ensures output[..] == Overwritten(old(output[..]), start, Zip(old(input[..])[start..start + length], k, at, XOR))
  {
    ghost var src, dst := input[..], output[..];
    var i := 0;
    while i < length
      invariant 0 <= i <= length
      invariant output[..] == Overwritten(dst, start, Zip(src[start..start + i], k, at, XOR))
      invariant forall j :: start + i <= j < input.Length ==> input[j] == src[j]
    {
      BytesNext(dst, src, start, i, k, at, XOR);
      MaskOne(input, output, start + i, k[(at + i) % |k|]);
      i := i + 1;
    }
  }

  method ByteMask(input: array<Byte>, output: array<Byte>, length: nat, key: Word32, keyOffset: nat)
    requires length <= input.Length && length <= output.Length
    modifies output
    ensures output[..] == Overwritten(old(output[..]), 0, Masked(old(input[..])[..length], key, keyOffset))
  {
    MaskBytes(input, output, 0, length, BytesOf(key), keyOffset);
  }

  /** A word xor is eight byte xors. */
  lemma XorWordIsZip(s: seq<Byte>, p: Word)
    requires |s| == 8
    ensures BytesOf(Xor(Spelled(s), p)) == Zip(s, BytesOf(p), 0, XOR)
  {
    var w := Spelled(s);
    forall i | 0 <= i < 8 ensures BytesOf(Xor(w, p))[i] == XOR(s[i], BytesOf(p)[i]) {
      SpelledAt(s, i);
      XorAt(w, p, i);
    }
    ZipOfEight(BytesOf(Xor(w, p)), s, BytesOf(p), XOR);
  }

  method StoreWord(a: array<Byte>, i: nat, w: Word)
    requires i + 8 <= a.Length
    modifies a
    ensures a[..] == old(a[..])[..i] + BytesOf(w) + old(a[..])[i + 8..]
    ensures forall j :: i + 8 <= j < a.Length ==> a[j] == old(a[j])
  {
    a[i], a[i + 1], a[i + 2], a[i + 3] := ByteAt(w, 0), ByteAt(w, 1), ByteAt(w, 2), ByteAt(w, 3);
    a[i + 4], a[i + 5], a[i + 6], a[i + 7] := ByteAt(w, 4), ByteAt(w, 5), ByteAt(w, 6), ByteAt(w, 7);
  }

  /** `output_word[i] = input_word[i] ^ prepared_key`, at byte `i`. */
  method MaskWord(input: array<Byte>, output: array<Byte>, i: nat, p: Word, ghost k: seq<Byte>)
    requires i + 8 <= input.Length && i + 8 <= output.Length && k == BytesOf(p)
    modifies output
    ensures output[..] == Overwritten(old(output[..]), i, Zip(old(input[..])[i..i + 8], k, 0, XOR))
    ensures forall j :: i + 8 <= j < input.Length ==> input[j] == old(input[j])
  {
    var s := input[..][i..i + 8];
    XorWordIsZip(s, p);
    OverwrittenIs(output[..], i, Zip(s, k, 0, XOR));
    StoreWord(output, i, Xor(Spelled(s), p));
  }

  /** Masks the first `n` words. */
  method MaskWords(input: array<Byte>, output: array<Byte>, n: nat, p: Word, ghost k: seq<Byte>)
    requires 8 * n <= input.Length && 8 * n <= output.Length && k == BytesOf(p)
    modifies output
    ensures output[..] == Overwritten(old(output[..]), 0, Zip(old(input[..])[..8 * n], k, 0, XOR))
    ensures forall j :: 8 * n <= j < input.Length ==> input[j] == old(input[j])
  {
    ghost var src, dst := input[..], output[..];
    ghost var m := 0;
    var i := 0;
    while i < n
      invariant 0 <= i <= n && m == 8 * i
      invariant output[..] == Overwritten(dst, 0, Zip(src[..m], k, 0, XOR))
      invariant forall j :: m <= j < input.Length ==> input[j] == src[j]
    {
      assert input[..][m..m + 8] == src[m..m + 8];
      AfterWords(dst, src, m, m + 8, k, XOR);
      MaskWord(input, output, 8 * i, p, k);
      i := i + 1;
      m := m + 8;
    }
  }

  lemma OverwrittenPieces<T>(dst: seq<T>, a: seq<T>, b: seq<T>, key: seq<T>, f: (T, T) -> T)
    requires |key| > 0 && |a| + |b| <= |dst|
    ensures Overwritten(Overwritten(dst, 0, Zip(a, key, 0, f)), |a|, Zip(b, key, |a|, f))
         == Overwritten(dst, 0, Zip(a + b, key, 0, f))
  {
    ZipConcat(a, b, key, 0, f);
    OverwrittenTwice(dst, 0, Zip(a, key, 0, f), Zip(b, key, |a|, f));
  }

  lemma ExactPieces<T>(dst: seq<T>, src: seq<T>, m: nat, n: nat, k: seq<T>, key: seq<T>, f: (T, T) -> T)
    requires |k| > 0 && |key| > 0 && m <= n <= |src| && n <= |dst|
    requires Zip(src[..m], k, 0, f) == Zip(src[..m], key, 0, f)
    ensures Overwritten(Overwritten(dst, 0, Zip(src[..m], k, 0, f)), m, Zip(src[m..n], key, m, f))
         == Overwritten(dst, 0, Zip(src[..n], key, 0, f))
  {
    SplitAt(src, m, n);
    OverwrittenPieces(dst, src[..m], src[m..n], key, f);
  }

  method WordMaskExact(input: array<Byte>, output: array<Byte>, length: nat, key: Word32)
    requires length <= input.Length && length <= output.Length
    modifies output
    ensures output[..] == Overwritten(old(output[..]), 0, Masked(old(input[..])[..length], key, 0))
  {
    ghost var src, dst := input[..], output[..];
    var n := length / 8;
    var m := 8 * n;
    var p := PrepareMaskingKey(key);
    MaskWords(input, output, n, p, BytesOf(p));
    assert input[..][m..length] == src[m..length];
    MaskBytes(input, output, m, length - m, BytesOf(key), m);
    PreparedZip(src[..m], key);
    ExactPieces(dst, src, m, length, BytesOf(p), BytesOf(key), XOR);
  }

  /** The two loops of `word_mask_circ`. */
  method MaskWithWord(input: array<Byte>, output: array<Byte>, length: nat, prepared: Word, ghost k: seq<Byte>)
    requires length <= input.Length && length <= output.Length && k == BytesOf(prepared)
    modifies output
    ensures output[..] == Overwritten(old(output[..]), 0, Zip(old(input[..])[..length], k, 0, XOR))
  {
    ghost var src, dst := input[..], output[..];
    var n := length / 8;
    MaskWords(input, output, n, prepared, k);
    assert input[..][8 * n..length] == src[8 * n..length];
    MaskBytes(input, output, 8 * n, length - 8 * n, BytesOf(prepared), 0);
    AfterWords(dst, src, 8 * n, length, k, XOR);
  }

  method WordMaskCirc(input: array<Byte>, output: array<Byte>, length: nat, prepared: Word) returns (next: Word)
    requires length <= input.Length && length <= output.Length
    modifies output
    ensures var (out, shifted) := Circ(true, old(input[..])[..length], prepared);
      output[..] == Overwritten(old(output[..]), 0, out) && next == shifted
  {
    MaskWithWord(input, output, length, prepared, BytesOf(prepared));
    next := CircshiftPreparedKey(prepared, length - length / 8 * 8);
  }

  /** `key.i = prepared_key` keeps the four low bytes. */
  lemma TruncatedKey(p: Word)
    ensures BytesOf(p[..32]) == BytesOf(p)[..4]
  {
    forall i | 0 <= i < 4 ensures ByteAt(p[..32], i) == ByteAt(p, i) {
      assert p[..32][8 * i..8 * i + 8] == p[8 * i..8 * i + 8];
    }
  }

  method ByteMaskCirc(input: array<Byte>, output: array<Byte>, length: nat, prepared: Word) returns (next: Word)
    requires length <= input.Length && length <= output.Length
    modifies output
    ensures var (out, shifted) := Circ(false, old(input[..])[..length], prepared);
      output[..] == Overwritten(old(output[..]), 0, out) && next == shifted
  {
    var key := prepared[..32];
    TruncatedKey(prepared);
    MaskBytes(input, output, 0, length, BytesOf(key), 0);
    next := CircshiftPreparedKey(prepared, length % 4);
  }
}
