/**
 The CCM* mode of os/lib/ccm-star.c over any block cipher, against the block formulas of sections 2.2 and 2.3 of
 RFC 3610 with M the MIC length and L = 2.
 */
module CcmStar {

  type byte = bv8
  type Block = s: seq<byte> | |s| == 16 witness seq(16, _ => 0)
  type Nonce = s: seq<byte> | |s| == 13 witness seq(13, _ => 0)
  type Cipher = Block -> Block

  // ----- RFC 3610 -----

  function Byte(n: nat): byte {
    (n % 256) as bv8
  }

  /** Two octets, most significant first. */
  function Octets(n: nat): seq<byte> {
    [Byte(n / 256), Byte(n)]
  }

  /** Section 2: the valid values of M. */
  predicate MicLength(n: byte) {
    n == 4 || n == 6 || n == 8 || n == 10 || n == 12 || n == 14 || n == 16
  }

  function XorBlock(a: Block, b: Block): Block {
    seq(16, i requires 0 <= i < 16 => a[i] ^ b[i])
  }

  /** Section 2.2: the flags octet of B_0, with M' = (M - 2) / 2 and L' = L - 1. */
  function RfcFlags(adata: bool, M: byte): byte {
    (if adata then 64 else 0) + 8 * ((M - 2) / 2) + 1
  }

  function B0(nonce: Nonce, mLen: nat, adata: bool, M: byte): Block {
    [RfcFlags(adata, M)] + nonce + Octets(mLen)
  }

  /** The number of blocks that n octets fill. */
  function BlockCount(n: nat): nat {
    (n + 15) / 16
  }

  /** The sixteen octets of s from `pos` on, padded with zeros. */
  function BlockAt(s: seq<byte>, pos: nat): Block {
    seq(16, i requires 0 <= i < 16 => if pos + i < |s| then s[pos + i] else 0)
  }

  function PaddedBlocks(s: seq<byte>): (r: seq<Block>)
    ensures |r| == BlockCount(|s|)
  {
    seq(BlockCount(|s|), j requires 0 <= j => BlockAt(s, 16 * j))
  }

  /** Section 2.2: l(a) and a, or nothing when there is no additional data. */
  function AuthString(a: seq<byte>): seq<byte> {
    if a == [] then [] else Octets(|a|) + a
  }

  /** Section 2.2: B_0, the blocks of the additional data, the blocks of the message. */
  function AuthBlocks(nonce: Nonce, m: seq<byte>, a: seq<byte>, M: byte): seq<Block> {
    [B0(nonce, |m|, a != [], M)] + PaddedBlocks(AuthString(a)) + PaddedBlocks(m)
  }

  /** Section 2.2: X_1 = E(B_0) and X_{i+1} = E(X_i XOR B_i). */
  function X(E: Cipher, B: seq<Block>, i: nat): Block
    requires 1 <= i <= |B|
  {
    if i == 1 then E(B[0]) else E(XorBlock(X(E, B, i - 1), B[i - 1]))
  }

  /** Section 2.3: the counter block A_i, with flags L' = L - 1. */
  function A(nonce: Nonce, i: nat): Block {
    [1] + nonce + Octets(i)
  }

  /** Section 2.3: the key stream block S_i = E(A_i). */
  function S(E: Cipher, nonce: Nonce, i: nat): Block {
    E(A(nonce, i))
  }

  /** Sections 2.2 and 2.3: U = T XOR first-M-bytes(S_0), where T is the first M bytes of X_{n+1}. */
  function Mic(E: Cipher, nonce: Nonce, m: seq<byte>, a: seq<byte>, M: byte): seq<byte>
    requires MicLength(M)
  {
    MicFits(M);
    var B := AuthBlocks(nonce, m, a, M);
    XorBlock(X(E, B, |B|), S(E, nonce, 0))[..M as nat]
  }

  lemma MicFits(M: byte)
    requires MicLength(M)
    ensures M as nat <= 16
  {
  }

  /** Section 2.3: the message XOR the first l(m) octets of S_1, S_2, ... */
  function Crypt(E: Cipher, nonce: Nonce, m: seq<byte>): (r: seq<byte>)
    ensures |r| == |m|
  {
    seq(|m|, p requires 0 <= p < |m| => m[p] ^ S(E, nonce, 1 + p / 16)[p % 16])
  }

  lemma CryptAt(E: Cipher, nonce: Nonce, m: seq<byte>, k: nat, p: nat)
    requires 16 * k <= p < 16 * k + 16 && p < |m|
    ensures Crypt(E, nonce, m)[p] == m[p] ^ S(E, nonce, k + 1)[p - 16 * k]
  {
    assert p / 16 == k && p % 16 == p - 16 * k;
  }

  lemma XorTwice(x: byte, k: byte)
    ensures (x ^ k) ^ k == x
  {
  }

  lemma XorZero(x: byte)
    ensures x ^ 0 == x
  {
  }

  /** Decryption is encryption again. */
  lemma CryptTwice(E: Cipher, nonce: Nonce, m: seq<byte>)
    ensures Crypt(E, nonce, Crypt(E, nonce, m)) == m
  {
    var c := Crypt(E, nonce, m);
    forall p | 0 <= p < |m|
      ensures Crypt(E, nonce, c)[p] == m[p]
    {
      XorTwice(m[p], S(E, nonce, 1 + p / 16)[p % 16]);
    }
  }

  // ----- What the blocks keep apart -----

  lemma Doubled(b: byte, odd: bool)
    requires b < 128
    ensures ((b << 1) | (if odd then 1 else 0)) as nat == 2 * (b as nat) + (if odd then 1 else 0)
  {
  }

  lemma BelowHalf(b: byte)
    requires b as nat < 128
    ensures b < 128
  {
  }

  /** Every number below 256 is an octet, bit by bit. */
  lemma {:induction false} OctetOf(x: nat) returns (b: byte)
    requires x < 256
    ensures b as nat == x
  {
    if x == 0 {
      b := 0;
    } else {
      var half := OctetOf(x / 2);
      BelowHalf(half);
      Doubled(half, x % 2 == 1);
      b := (half << 1) | (if x % 2 == 1 then 1 else 0);
    }
  }

  lemma BackAgain(b: byte)
    ensures (b as nat) as bv8 == b
  {
  }

  lemma OctetIsExact(x: nat)
    requires x < 256
    ensures (x as bv8) as nat == x
  {
    var b := OctetOf(x);
    BackAgain(b);
  }

  lemma ByteTells(m: nat, n: nat)
    requires Byte(m) == Byte(n)
    ensures m % 256 == n % 256
  {
    var x, y := m % 256, n % 256;
    OctetIsExact(x);
    OctetIsExact(y);
    assert x as bv8 == y as bv8;
  }

  lemma OctetsParts(m: nat, n: nat)
    requires Octets(m) == Octets(n)
    ensures Byte(m / 256) == Byte(n / 256) && Byte(m) == Byte(n)
  {
    hide Byte;
    assert Octets(m)[0] == Octets(n)[0] && Octets(m)[1] == Octets(n)[1];
  }

  lemma OctetsTell(m: nat, n: nat)
    requires m < 65536 && n < 65536 && Octets(m) == Octets(n)
    ensures m == n
  {
    hide Octets, Byte;
    OctetsParts(m, n);
    ByteTells(m / 256, n / 256);
    ByteTells(m, n);
  }

  lemma FlagsTell(adata: bool, M: byte)
    requires MicLength(M)
    ensures RfcFlags(adata, M) != 1 && (adata <==> RfcFlags(adata, M) & 64 != 0)
  {
  }

  /** No counter block is the first block of an authentication, and different counters have different blocks. */
  lemma CounterBlocksDiffer(nonce: Nonce, i: nat, j: nat, nonce': Nonce, mLen: nat, adata: bool, M: byte)
    requires MicLength(M)
    ensures A(nonce, i) != B0(nonce', mLen, adata, M)
    ensures i < 65536 && j < 65536 && A(nonce, i) == A(nonce', j) ==> nonce == nonce' && i == j
  {
    FlagsTell(adata, M);
    assert A(nonce, i)[0] == 1 && B0(nonce', mLen, adata, M)[0] == RfcFlags(adata, M);
    if i < 65536 && j < 65536 && A(nonce, i) == A(nonce', j) {
      assert A(nonce, i)[1..14] == nonce && A(nonce', j)[1..14] == nonce';
      assert A(nonce, i)[14..] == Octets(i) && A(nonce', j)[14..] == Octets(j);
      OctetsTell(i, j);
    }
  }

  /** Padded blocks and the length tell the octets. */
  lemma PaddingTells(s: seq<byte>, t: seq<byte>)
    requires |s| == |t| && PaddedBlocks(s) == PaddedBlocks(t)
    ensures s == t
  {
    forall i | 0 <= i < |s|
      ensures s[i] == t[i]
    {
      assert PaddedBlocks(s)[i / 16] == BlockAt(s, 16 * (i / 16)) && PaddedBlocks(t)[i / 16] == BlockAt(t, 16 * (i / 16));
      assert BlockAt(s, 16 * (i / 16))[i % 16] == s[i] && BlockAt(t, 16 * (i / 16))[i % 16] == t[i];
    }
  }

  /** The length in front of the additional data. */
  lemma DataLengthTells(a: seq<byte>, b: seq<byte>)
    requires a != [] && b != [] && |a| < 65536 && |b| < 65536
    requires BlockAt(AuthString(a), 0) == BlockAt(AuthString(b), 0)
    ensures |a| == |b|
  {
    assert AuthString(a)[..2] == Octets(|a|) && AuthString(b)[..2] == Octets(|b|);
    var x, y := BlockAt(AuthString(a), 0), BlockAt(AuthString(b), 0);
    assert x[0] == Octets(|a|)[0] && x[1] == Octets(|a|)[1] && y[0] == Octets(|b|)[0] && y[1] == Octets(|b|)[1];
    OctetsTell(|a|, |b|);
  }

  /** What is authenticated is exactly nonce, message and additional data: different ones have different block sequences. */
  lemma AuthBlocksTell(nonce: Nonce, m: seq<byte>, a: seq<byte>, nonce': Nonce, m': seq<byte>, a': seq<byte>, M: byte)
    requires MicLength(M) && |m| < 65536 && |m'| < 65536 && |a| < 65280 && |a'| < 65280
    requires AuthBlocks(nonce, m, a, M) == AuthBlocks(nonce', m', a', M)
    ensures nonce == nonce' && m == m' && a == a'
  {
    assert AuthBlocks(nonce, m, a, M)[0] == AuthBlocks(nonce', m', a', M)[0];
    FirstBlockTells(nonce, |m|, a != [], nonce', |m'|, a' != [], M);
    SameDataLength(nonce, m, a, nonce', m', a', M);
    hide AuthBlocks, AuthString, PaddedBlocks, B0;
    SameAuthLength(a, a');
    SameParts(nonce, m, a, nonce', m', a', M);
    PaddingTells(m, m');
    PaddingTells(AuthString(a), AuthString(a'));
    AuthStringTells(a, a');
  }

  lemma SameParts(nonce: Nonce, m: seq<byte>, a: seq<byte>, nonce': Nonce, m': seq<byte>, a': seq<byte>, M: byte)
    requires |AuthString(a)| == |AuthString(a')| && AuthBlocks(nonce, m, a, M) == AuthBlocks(nonce', m', a', M)
    ensures PaddedBlocks(AuthString(a)) == PaddedBlocks(AuthString(a')) && PaddedBlocks(m) == PaddedBlocks(m')
  {
    hide AuthBlocks, AuthString, PaddedBlocks;
    BlockParts(nonce, m, a, M);
    BlockParts(nonce', m', a', M);
  }

  lemma SameDataLength(nonce: Nonce, m: seq<byte>, a: seq<byte>, nonce': Nonce, m': seq<byte>, a': seq<byte>, M: byte)
    requires |a| < 65536 && |a'| < 65536 && (a == [] <==> a' == []) && AuthBlocks(nonce, m, a, M) == AuthBlocks(nonce', m', a', M)
    ensures |a| == |a'|
  {
    if a != [] {
      FirstDataBlockIs(nonce, m, a, M);
      FirstDataBlockIs(nonce', m', a', M);
      hide AuthBlocks, BlockAt, AuthString;
      DataLengthTells(a, a');
    }
  }

  lemma BlockParts(nonce: Nonce, m: seq<byte>, a: seq<byte>, M: byte)
    ensures var B, n := AuthBlocks(nonce, m, a, M), BlockCount(|AuthString(a)|);
      1 + n <= |B| && B[1..1 + n] == PaddedBlocks(AuthString(a)) && B[1 + n..] == PaddedBlocks(m)
  {
    hide B0, AuthString;
  }

  lemma FirstBlockTells(nonce: Nonce, mLen: nat, adata: bool, nonce': Nonce, mLen': nat, adata': bool, M: byte)
    requires MicLength(M) && mLen < 65536 && mLen' < 65536 && B0(nonce, mLen, adata, M) == B0(nonce', mLen', adata', M)
    ensures nonce == nonce' && mLen == mLen' && adata == adata'
  {
    var b, b' := B0(nonce, mLen, adata, M), B0(nonce', mLen', adata', M);
    assert b[0] == RfcFlags(adata, M) && b'[0] == RfcFlags(adata', M);
    FlagsTell(adata, M);
    FlagsTell(adata', M);
    assert b[1..14] == nonce && b'[1..14] == nonce';
    assert b[14..] == Octets(mLen) && b'[14..] == Octets(mLen');
    OctetsTell(mLen, mLen');
  }

  lemma FirstDataBlockIs(nonce: Nonce, m: seq<byte>, a: seq<byte>, M: byte)
    requires a != []
    ensures |AuthBlocks(nonce, m, a, M)| > 1 && AuthBlocks(nonce, m, a, M)[1] == BlockAt(AuthString(a), 0)
  {
  }

  lemma SameAuthLength(a: seq<byte>, b: seq<byte>)
    requires |a| == |b|
    ensures |AuthString(a)| == |AuthString(b)|
  {
  }

  lemma AuthStringTells(a: seq<byte>, b: seq<byte>)
    requires |a| == |b| && AuthString(a) == AuthString(b)
    ensures a == b
  {
    if a != [] {
      assert AuthString(a)[2..] == a && AuthString(b)[2..] == b;
    }
  }

  // ----- The code -----

  /** CCM_STAR_AUTH_FLAGS in unsigned arithmetic, cut to an octet. */
  function AuthFlags(adata: bool, M: byte): byte {
    var f: bv32 := (if adata then 1 << 6 else 0) | (((M as bv32 - 2) >> 1) << 3) | 1;
    (f & 0xFF) as bv8
  }

  /** The bit fields are the sum that section 2.2 asks for. */
  lemma FlagsAgree(adata: bool, M: byte)
    requires MicLength(M)
    ensures AuthFlags(adata, M) == RfcFlags(adata, M)
  {
  }

  /** Addition of 8-bit unsigned numbers. */
  function Add8(x: nat, y: nat): (r: nat)
    ensures x + y < 256 ==> r == x + y
    ensures r < 256 && (x + y - r) % 256 == 0
  {
    (x + y) % 256
  }

  method Encrypt(E: Cipher, x: array<byte>)
    requires x.Length == 16
    modifies x
    ensures x[..] == E(old(x[..]))
  {
    var y := E(x[..]);
    forall i | 0 <= i < 16 {
      x[i] := y[i];
    }
  }

  /** set_iv */
  method SetIv(iv: array<byte>, flags: byte, nonce: Nonce, counter: nat)
    requires iv.Length == 16 && counter < 256
    modifies iv
    ensures iv[..] == [flags] + nonce + Octets(counter)
  {
    iv[0] := flags;
    forall i | 0 <= i < 13 {
      iv[1 + i] := nonce[i];
    }
    iv[14] := 0;
    iv[15] := Byte(counter);
  }

  /** ctr_step: XORs m[pos], ..., m[pos + 15] with a block of the key stream. */
  method CtrStep(E: Cipher, nonce: Nonce, pos: nat, m: array<byte>, counter: nat)
    requires counter < 256
    modifies m
    ensures forall p :: 0 <= p < m.Length ==>
      m[p] == if pos <= p < pos + 16 then old(m[p]) ^ S(E, nonce, counter)[p - pos] else old(m[p])
  {
    var a := new byte[16];
    SetIv(a, 1, nonce, counter);
    Encrypt(E, a);
    ghost var k := S(E, nonce, counter);
    assert a[..] == k;
    var i := 0;
    while pos + i < m.Length && i < 16
      invariant 0 <= i <= 16
      invariant a[..] == k
      invariant forall p :: 0 <= p < m.Length ==>
        m[p] == if pos <= p < pos + i then old(m[p]) ^ k[p - pos] else old(m[p])
    {
      assert a[i] == a[..][i];
      m[pos + i] := m[pos + i] ^ a[i];
      i := i + 1;
    }
  }

  /** ctr */
  method Ctr(E: Cipher, nonce: Nonce, m: array<byte>)
    requires m.Length <= 240
    modifies m
    ensures m[..] == Crypt(E, nonce, old(m[..]))
  {
    hide Crypt, S, Add8;
    var pos, counter := 0, 1;
    ghost var k := 0;
    ghost var was := old(m[..]);
    while pos < m.Length
      invariant 0 <= k <= 15 && pos == 16 * k && counter == k + 1
      invariant forall p :: 0 <= p < m.Length ==> m[p] == if p < pos then Crypt(E, nonce, was)[p] else was[p]
      decreases 256 - pos
    {
      CtrStep(E, nonce, pos, m, counter);
      forall p | pos <= p < pos + 16 && p < m.Length
        ensures m[p] == Crypt(E, nonce, was)[p]
      {
        CryptAt(E, nonce, was, k, p);
      }
      counter := Add8(counter, 1);
      pos := Add8(pos, 16);
      k := k + 1;
    }
  }

  /** The loop that XORs a block of a message or of the additional data into x. */
  method XorInto(x: array<byte>, s: seq<byte>, pos: nat)
    requires x.Length == 16
    modifies x
    ensures x[..] == XorBlock(old(x[..]), BlockAt(s, pos))
  {
    ghost var b := BlockAt(s, pos);
    var i := 0;
    while pos + i < |s| && i < 16
      invariant 0 <= i <= 16
      invariant forall k :: 0 <= k < 16 ==> x[k] == if k < i then old(x[k]) ^ b[k] else old(x[k])
    {
      x[i] := x[i] ^ s[pos + i];
      i := i + 1;
    }
    forall k | 0 <= k < 16
      ensures x[k] == old(x[k]) ^ b[k]
    {
      XorZero(old(x[k]));
    }
  }

  /** The loops of mic over the message (from 0) and over the additional data (from 14), with an 8-bit `pos`. */
  method Absorb(E: Cipher, x: array<byte>, s: seq<byte>, start: nat, ghost B: seq<Block>, ghost done: nat)
    requires x.Length == 16 && start < 16 && |s| <= 240 + start
    requires 1 <= done && done + Turns(|s|, start) <= |B|
    requires forall k :: done <= k < done + Turns(|s|, start) ==> B[k] == BlockAt(s, start + 16 * (k - done))
    requires x[..] == X(E, B, done)
    modifies x
    ensures x[..] == X(E, B, done + Turns(|s|, start))
  {
    hide BlockAt, XorBlock, X, Turns, Add8;
    var pos := start;
    ghost var k := done;
    while pos < |s|
      invariant done <= k && pos == start + 16 * (k - done) && pos <= 240 + start
      invariant k <= done + Turns(|s|, start)
      invariant x[..] == X(E, B, k)
      decreases 256 - pos
    {
      TurnsLeft(|s|, start, k - done);
      XorInto(x, s, pos);
      pos := Add8(pos, 16);
      Encrypt(E, x);
      NextX(E, B, k);
      k := k + 1;
    }
    TurnsLeft(|s|, start, k - done);
  }

  lemma NextX(E: Cipher, B: seq<Block>, i: nat)
    requires 1 <= i < |B|
    ensures X(E, B, i + 1) == E(XorBlock(X(E, B, i), B[i]))
  {
  }

  lemma TurnsLeft(len: nat, start: nat, done: nat)
    ensures start + 16 * done < len ==> done < Turns(len, start)
    ensures start + 16 * done >= len && done <= Turns(len, start) ==> done == Turns(len, start)
  {
  }

  /** How often a loop from `start` in steps of 16 runs. */
  function Turns(len: nat, start: nat): nat {
    if len <= start then 0 else BlockCount(len - start)
  }

  /** The first block of the additional data starts with its length, so the rest is shifted by two. */
  lemma FirstDataBlock(a: seq<byte>)
    requires 1 <= |a| < 256
    ensures var b := BlockAt(AuthString(a), 0);
      b[0] == 0 && b[1] == Byte(|a|) && forall i :: 2 <= i < 16 ==> b[i] == if i - 2 < |a| then a[i - 2] else 0
  {
    var s := AuthString(a);
    assert s[0] == 0 && s[1] == Byte(|a|);
    assert forall i :: 2 <= i < |s| ==> s[i] == a[i - 2];
  }

  lemma LaterDataBlock(a: seq<byte>, j: nat)
    requires 1 <= |a| && 1 <= j
    ensures BlockAt(AuthString(a), 16 * j) == BlockAt(a, 16 * j - 2)
  {
    var s := AuthString(a);
    assert forall i :: 2 <= i < |s| ==> s[i] == a[i - 2];
  }

  /** The first block of the additional data, XORed into x behind the length. */
  method XorFirst(x: array<byte>, a: seq<byte>)
    requires x.Length == 16 && 1 <= |a| < 256
    modifies x
    ensures x[..] == XorBlock(old(x[..]), BlockAt(AuthString(a), 0))
  {
    hide BlockAt, AuthString, Byte;
    ghost var b := BlockAt(AuthString(a), 0);
    FirstDataBlock(a);
    x[1] := x[1] ^ Byte(|a|);
    var i := 2;
    while i - 2 < |a| && i < 16
      invariant 2 <= i <= 16
      invariant forall k :: 0 <= k < 16 ==> x[k] == if 1 <= k < i then old(x[k]) ^ b[k] else old(x[k])
    {
      x[i] := x[i] ^ a[i - 2];
      i := i + 1;
    }
    forall k | 0 <= k < 16
      ensures x[k] == old(x[k]) ^ b[k]
    {
      XorZero(old(x[k]));
    }
  }

  lemma DataBlocks(a: seq<byte>)
    requires a != []
    ensures var D := PaddedBlocks(AuthString(a));
      && |D| == 1 + Turns(|a|, 14) && D[0] == BlockAt(AuthString(a), 0)
      && forall k :: 1 <= k < |D| ==> D[k] == BlockAt(a, 14 + 16 * (k - 1))
  {
    hide BlockAt;
    var D := PaddedBlocks(AuthString(a));
    forall k | 1 <= k < |D|
      ensures D[k] == BlockAt(a, 14 + 16 * (k - 1))
    {
      LaterDataBlock(a, k);
    }
  }

  /** Which block is where in the sequence of section 2.2. */
  lemma BlockPlaces(nonce: Nonce, m: seq<byte>, a: seq<byte>, M: byte)
    ensures var B, n := AuthBlocks(nonce, m, a, M), BlockCount(|AuthString(a)|);
      && |B| == 1 + n + Turns(|m|, 0)
      && B[0] == [RfcFlags(a != [], M)] + nonce + Octets(|m|)
      && (a == [] ==> n == 0) && (m == [] ==> Turns(|m|, 0) == 0)
      && (a != [] ==> n == 1 + Turns(|a|, 14) && B[1] == BlockAt(AuthString(a), 0))
      && (forall k :: 2 <= k < 1 + n ==> B[k] == BlockAt(a, 14 + 16 * (k - 2)))
      && (forall k :: 1 + n <= k < |B| ==> B[k] == BlockAt(m, 0 + 16 * (k - (1 + n))))
  {
    hide BlockAt, Octets, RfcFlags;
    if a != [] {
      DataBlocks(a);
      hide AuthString;
    }
  }

  /** mic: the tag of section 2.2, masked as in section 2.3. */
  method ComputeMic(E: Cipher, nonce: Nonce, m: seq<byte>, a: seq<byte>, micLen: byte) returns (result: seq<byte>)
    requires |m| <= 240 && |a| <= 254 && MicLength(micLen)
    ensures result == Mic(E, nonce, m, a, micLen)
  {
    hide BlockAt, XorBlock, PaddedBlocks, AuthBlocks, AuthString, X, S, Octets, AuthFlags, RfcFlags, Turns, BlockCount;
    var x := new byte[16];
    SetIv(x, AuthFlags(a != [], micLen), nonce, |m|);
    Encrypt(E, x);
    ghost var B := AuthBlocks(nonce, m, a, micLen);
    ghost var n := BlockCount(|AuthString(a)|);
    FlagsAgree(a != [], micLen);
    BlockPlaces(nonce, m, a, micLen);
    FirstX(E, B);
    if a != [] {
      XorFirst(x, a);
      Encrypt(E, x);
      NextX(E, B, 1);
      Absorb(E, x, a, 14, B, 2);
    }
    assert x[..] == X(E, B, 1 + n);
    if m != [] {
      Absorb(E, x, m, 0, B, 1 + n);
    }
    assert x[..] == X(E, B, |B|);
    Mask(E, nonce, x);
    MicFits(micLen);
    result := x[..micLen as int];
  }

  lemma FirstX(E: Cipher, B: seq<Block>)
    requires B != []
    ensures X(E, B, 1) == E(B[0])
  {
  }

  method Mask(E: Cipher, nonce: Nonce, x: array<byte>)
    requires x.Length == 16
    modifies x
    ensures x[..] == XorBlock(old(x[..]), S(E, nonce, 0))
  {
    CtrStep(E, nonce, 0, x, 0);
  }

  /** aead */
  method Aead(E: Cipher, nonce: Nonce, m: array<byte>, a: seq<byte>, micLen: byte, forward: bool) returns (result: seq<byte>)
    requires m.Length <= 240 && |a| <= 254 && MicLength(micLen)
    modifies m
    ensures m[..] == Crypt(E, nonce, old(m[..]))
    ensures result == Mic(E, nonce, if forward then old(m[..]) else m[..], a, micLen)
  {
    if !forward {
      Ctr(E, nonce, m);
    }
    result := ComputeMic(E, nonce, m[..], a, micLen);
    if forward {
      Ctr(E, nonce, m);
    }
  }

  /** Sealing and opening with the same nonce restores the message and reproduces the MIC. */
  method SealAndOpen(E: Cipher, nonce: Nonce, m: array<byte>, a: seq<byte>, micLen: byte) returns (sent: seq<byte>, computed: seq<byte>)
    requires m.Length <= 240 && |a| <= 254 && MicLength(micLen)
    modifies m
    ensures m[..] == old(m[..]) && sent == computed == Mic(E, nonce, m[..], a, micLen)
  {
    sent := Aead(E, nonce, m, a, micLen, true);
    CryptTwice(E, nonce, old(m[..]));
    computed := Aead(E, nonce, m, a, micLen, false);
  }

  // ----- Where the 8-bit position wraps -----

  /** The value of `pos` after k turns. */
  function PosAfter(start: nat, k: nat): nat {
    (start + 16 * k) % 256
  }

  ghost predicate Ends(len: nat, start: nat) {
    exists k: nat :: PosAfter(start, k) >= len
  }

  lemma PosIsBounded(start: nat, k: nat)
    requires start < 16
    ensures PosAfter(start, k) <= 240 + start
  {
    var q, r := k / 16, k % 16;
    assert start + 16 * k == 256 * q + (start + 16 * r);
  }

  /** For lengths that fit in an octet, the loops end exactly up to 240 octets of message and 254 of data. */
  lemma LoopEndsExactly(len: nat, start: nat)
    requires start < 16
    ensures Ends(len, start) <==> len <= 240 + start
  {
    if len <= 240 + start {
      assert PosAfter(start, 15) == 240 + start;
    } else {
      forall k: nat
        ensures PosAfter(start, k) < len
      {
        PosIsBounded(start, k);
      }
    }
  }
}
