/** The hash that binds a batch of commitments to its settlement proof, computed three ways: over a
    zero-filled buffer, bit by bit, and by the settlement script for a single commitment. SHA-256
    is a parameter. */
module Commitments {
  import opened Bits
  import opened BigEndian
  import opened Words
  import opened Merkle
  import ProofCodec

  type Digest = seq<Byte> -> seq<Byte>

  /** The batch padded with zero commitments up to max. */
  function PaddedBatch(commitments: seq<nat>, batchSize: nat, max: nat): (ws: seq<nat>)
    requires batchSize <= |commitments| && batchSize <= max
    ensures |ws| == max
  {
    Pad(commitments[..batchSize], max)
  }

  lemma PaddedAt(commitments: seq<nat>, batchSize: nat, max: nat, i: nat)
    requires batchSize <= |commitments| && batchSize <= max && i < max
    ensures PaddedBatch(commitments, batchSize, max)[i] == if i < batchSize then commitments[i] else 0
  {
    assert Leaf(PaddedBatch(commitments, batchSize, max), i) == Leaf(commitments[..batchSize], i);
  }

  /** The preimage: each padded commitment as a 32-byte big-endian word. */
  function Preimage(commitments: seq<nat>, batchSize: nat, max: nat): seq<Byte>
    requires batchSize <= |commitments| && batchSize <= max
  {
    Concat(PaddedBatch(commitments, batchSize, max))
  }

  ghost predicate IsDigest(sha256: Digest) {
    forall s: seq<Byte> :: |sha256(s)| == 32
  }

  /** The hash: SHA-256 of the preimage, masked to 253 bits. */
  function CommitmentsHash(sha256: Digest, commitments: seq<nat>, batchSize: nat, max: nat): nat
    requires batchSize <= |commitments| && batchSize <= max
  {
    And(NatOf(sha256(Preimage(commitments, batchSize, max))), MASK_253)
  }

  /** pre holds the batch as 32-byte big-endian words, and zeros up to max words. */
  predicate IsPreimage(pre: seq<Byte>, commitments: seq<nat>, batchSize: nat, max: nat)
    requires batchSize <= |commitments| && batchSize <= max
  {
    && |pre| == 32 * max
    && (forall i :: 0 <= i < batchSize ==> pre[32 * i..32 * i + 32] == ToBytes(commitments[i], 32))
    && (forall j :: 32 * batchSize <= j < |pre| ==> pre[j] == 0)
  }

  lemma {:induction false} PrefixWords(pre: seq<Byte>, ws: seq<nat>)
    requires WORD * |ws| <= |pre|
    requires forall i :: 0 <= i < |ws| ==> pre[32 * i..32 * i + 32] == ToBytes(ws[i], 32)
    ensures pre[..WORD * |ws|] == Concat(ws)
    decreases |ws|
  {
    if ws != [] {
      var n := |ws| - 1;
      PrefixWords(pre, ws[..n]);
      assert pre[..WORD * |ws|] == pre[..WORD * n] + pre[32 * n..32 * n + 32];
    }
  }

  lemma PreimageWord(commitments: seq<nat>, batchSize: nat, max: nat, i: nat)
    requires batchSize <= |commitments| && batchSize <= max && i < max
    ensures var pre := Preimage(commitments, batchSize, max);
      |pre| == 32 * max && pre[32 * i..32 * i + 32] == ToBytes(if i < batchSize then commitments[i] else 0, 32)
  {
    PaddedAt(commitments, batchSize, max, i);
    ConcatAt(PaddedBatch(commitments, batchSize, max), i);
  }

  /** There is one such string, and it is what is hashed. */
  lemma PreimageExact(commitments: seq<nat>, batchSize: nat, max: nat, pre: seq<Byte>)
    requires batchSize <= |commitments| && batchSize <= max
    ensures IsPreimage(pre, commitments, batchSize, max) <==> pre == Preimage(commitments, batchSize, max)
  {
    var ws := commitments[..batchSize];
    if IsPreimage(pre, commitments, batchSize, max) {
      PrefixWords(pre, ws);
      ZeroTail(ws, max, pre);
    }
    if pre == Preimage(commitments, batchSize, max) {
      forall i: nat | i < batchSize ensures pre[32 * i..32 * i + 32] == ToBytes(commitments[i], 32) {
        PreimageWord(commitments, batchSize, max, i);
      }
      forall j: nat | 32 * batchSize <= j < |pre| ensures pre[j] == 0 {
        PreimageWord(commitments, batchSize, max, j / 32);
        ZeroAt(pre, j / 32, j);
      }
    }
  }

  lemma ZeroAt(pre: seq<Byte>, i: nat, j: nat)
    requires 32 * i <= j < 32 * i + 32 <= |pre| && pre[32 * i..32 * i + 32] == ToBytes(0, 32)
    ensures pre[j] == 0
  {
    ZeroBytes(32, j - 32 * i);
    assert pre[j] == pre[32 * i..32 * i + 32][j - 32 * i];
  }

  /** The hash in plain terms: the digest of that string, modulo 2^253. */
  lemma HashOf(sha256: Digest, commitments: seq<nat>, batchSize: nat, max: nat)
    requires batchSize <= |commitments| && batchSize <= max
    ensures forall pre :: IsPreimage(pre, commitments, batchSize, max) ==>
      CommitmentsHash(sha256, commitments, batchSize, max) == NatOf(sha256(pre)) % TWO_253
  {
    forall pre | IsPreimage(pre, commitments, batchSize, max)
      ensures CommitmentsHash(sha256, commitments, batchSize, max) == NatOf(sha256(pre)) % TWO_253
    {
      PreimageExact(commitments, batchSize, max, pre);
      MaskMod(NatOf(sha256(pre)));
    }
  }

  // ----- over a buffer -----

  lemma {:induction false} ZeroBytes(n: nat, i: nat)
    requires i < n
    ensures ToBytes(0, n)[i] == 0
  {
    if i < n - 1 { ZeroBytes(n - 1, i); }
  }

  lemma ZeroWord(s: seq<Byte>)
    requires |s| == WORD && forall i :: 0 <= i < WORD ==> s[i] == 0
    ensures s == ToBytes(0, WORD)
  {
    forall i | 0 <= i < WORD ensures s[i] == ToBytes(0, WORD)[i] { ZeroBytes(WORD, i); }
  }

  lemma PadStep(ws: seq<nat>, max: nat)
    requires |ws| < max
    ensures Concat(Pad(ws, max)) == Concat(Pad(ws, max - 1)) + ToBytes(0, WORD)
  {
    assert Pad(ws, max)[..max - 1] == Pad(ws, max - 1);
  }

  /** A zero-filled tail is the padding. */
  lemma {:induction false} ZeroTail(ws: seq<nat>, max: nat, s: seq<Byte>)
    requires |ws| <= max && |s| == WORD * max && s[..WORD * |ws|] == Concat(ws)
    requires forall i :: WORD * |ws| <= i < |s| ==> s[i] == 0
    ensures s == Concat(Pad(ws, max))
    decreases max
  {
    if |ws| < max {
      var n := WORD * (max - 1);
      assert s[..n][..WORD * |ws|] == s[..WORD * |ws|];
      ZeroTail(ws, max - 1, s[..n]);
      ZeroWord(s[n..]);
      PadStep(ws, max);
      assert s == s[..n] + s[n..];
    } else {
      assert s[..WORD * max] == s;
    }
  }

  /** The relayer's hash. */
  method ComputeCommitmentsHash(sha256: Digest, commitments: seq<nat>, batchSize: nat, max: nat) returns (hash: nat)
    requires batchSize <= |commitments| && batchSize <= max
    requires AllFit(commitments[..batchSize])
    ensures hash == CommitmentsHash(sha256, commitments, batchSize, max)
    ensures forall pre :: IsPreimage(pre, commitments, batchSize, max) ==> hash == NatOf(sha256(pre)) % TWO_253
  {
    HashOf(sha256, commitments, batchSize, max);
    var buffer := new Byte[max * 32](_ => 0);
    ghost var ws := commitments[..batchSize];
    assert ws[..0] == [];
    for i := 0 to batchSize
      invariant buffer[..WORD * i] == Concat(ws[..i])
      invariant forall j :: WORD * i <= j < buffer.Length ==> buffer[j] == 0
    {
      assert ws[i] in ws;
      var bytes := FeToBytes32BE(commitments[i]);
      ghost var before := buffer[..];
      ProofCodec.SetAt(buffer, bytes, i * 32);
      assert buffer[..WORD * (i + 1)] == before[..WORD * i] + bytes;
      assert ws[..i + 1][..i] == ws[..i];
      assert forall j :: WORD * (i + 1) <= j < buffer.Length ==> buffer[j] == before[j];
    }
    assert ws[..batchSize] == ws;
    ZeroTail(ws, max, buffer[..]);
    var digest := sha256(buffer[..]);
    var value := BytesToBigIntBE(digest);
    hash := And(value, MASK_253);
  }

  // ----- bit by bit -----

  type Bit = x: nat | x < 2

  /** The n low bits of v, most significant first. */
  function BitsMsb(v: nat, n: nat): (s: seq<Bit>)
    ensures |s| == n
    decreases n, v
  {
    if n == 0 then [] else BitsMsb(v / 2, n - 1) + [v % 2]
  }

  /** Value of a bit string. */
  function BitsNat(s: seq<Bit>): nat {
    if s == [] then 0 else BitsNat(s[..|s| - 1]) * 2 + s[|s| - 1]
  }

  lemma {:induction false} BitsNatBound(s: seq<Bit>)
    ensures BitsNat(s) < Pow2(|s|)
    decreases |s|
  {
    if s != [] { BitsNatBound(s[..|s| - 1]); }
  }

  /** Groups 8 * n bits into n bytes. */
  function Pack(bits: seq<Bit>, n: nat): (s: seq<Byte>)
    requires |bits| == 8 * n
    ensures |s| == n
    decreases n, |bits|
  {
    if n == 0 then []
    else
      var m := 8 * (n - 1);
      BitsNatBound(bits[m..]);
      assert Pow2(8) == 256;
      Pack(bits[..m], n - 1) + [BitsNat(bits[m..])]
  }

  lemma SplitAppend(a: seq<Bit>, front: seq<Bit>, last: seq<Bit>, cut: nat)
    requires cut == |a| + |front|
    ensures (a + (front + last))[..cut] == a + front && (a + (front + last))[cut..] == last
  {}

  lemma {:induction false} PackAppend(a: seq<Bit>, m: nat, b: seq<Bit>, n: nat)
    requires |a| == 8 * m && |b| == 8 * n
    ensures Pack(a + b, m + n) == Pack(a, m) + Pack(b, n)
    decreases n
  {
    if n == 0 {
      assert a + b == a;
    } else {
      var front, last := b[..8 * (n - 1)], b[8 * (n - 1)..];
      assert b == front + last;
      SplitAppend(a, front, last, 8 * (m + n - 1));
      PackAppend(a, m, front, n - 1);
    }
  }

  lemma {:induction false} BitsMsbNat(v: nat, n: nat)
    requires v < Pow2(n)
    ensures BitsNat(BitsMsb(v, n)) == v
    decreases n
  {
    if n > 0 {
      BitsMsbNat(v / 2, n - 1);
      assert BitsMsb(v, n)[..n - 1] == BitsMsb(v / 2, n - 1);
    }
  }

  lemma Halve(v: nat, p: nat, q: nat, r: nat)
    requires v == 2 * p * q + r
    ensures v / 2 == p * q + r / 2 && v % 2 == r % 2
  {
    assert 2 * p * q == 2 * (p * q);
  }

  /** The low m bits, of value r, and the rest. */
  lemma {:induction false} BitsSplit(v: nat, n: nat, m: nat, q: nat, r: nat)
    requires v == Pow2(m) * q + r && r < Pow2(m)
    ensures BitsMsb(v, n + m) == BitsMsb(q, n) + BitsMsb(r, m)
    decreases m
  {
    if m > 0 {
      Halve(v, Pow2(m - 1), q, r);
      BitsSplit(v / 2, n, m - 1, q, r / 2);
      assert BitsMsb(v, n + m) == BitsMsb(v / 2, n + (m - 1)) + [v % 2];
    }
  }

  lemma LastByte(v: nat, m: nat, q: nat, r: Byte)
    requires v == 256 * q + r
    ensures BitsMsb(v, m + 8)[..m] == BitsMsb(q, m) && BitsNat(BitsMsb(v, m + 8)[m..]) == r
  {
    assert Pow2(8) == 256;
    BitsSplit(v, m, 8, q, r);
    BitsMsbNat(r, 8);
  }

  /** Packing the bits of v gives its bytes. */
  lemma {:induction false} PackBits(v: nat, n: nat)
    ensures Pack(BitsMsb(v, 8 * n), n) == ToBytes(v, n)
    decreases n
  {
    if n > 0 {
      LastByte(v, 8 * (n - 1), v / 256, v % 256);
      PackBits(v / 256, n - 1);
    }
  }

  function Reverse(s: seq<Bit>): (r: seq<Bit>)
    ensures |r| == |s|
  {
    if s == [] then [] else [s[|s| - 1]] + Reverse(s[..|s| - 1])
  }

  /** The inner loop: pushes the low bits of val, lowest first, then reverses. */
  method LowBits(val: nat, width: nat) returns (bits: seq<Bit>)
    ensures bits == BitsMsb(val, width)
  {
    bits := [];
    var v := val;
    for b := 0 to width
      invariant |bits| == b
      invariant BitsMsb(val, width) == BitsMsb(v, width - b) + Reverse(bits)
    {
      AndMask(v, 1, v / 2, v % 2);
      assert Pow2(1) == 2;
      ghost var before := bits;
      bits := bits + [And(v, 1)];
      assert bits[..b] == before;
      assert BitsMsb(v, width - b) == BitsMsb(v / 2, width - b - 1) + [v % 2];
      v := v / 2;
    }
    bits := Reverse(bits);
  }

  /** The inner packing loop: a byte shifts in eight bits. */
  method PackByte(bits: seq<Bit>) returns (byte: Byte)
    requires |bits| == 8
    ensures byte == BitsNat(bits)
  {
    var acc: nat := 0;
    for b := 0 to 8
      invariant acc == BitsNat(bits[..b])
    {
      assert bits[..b + 1][..b] == bits[..b];
      OrLow(acc, bits[b], 1);
      assert Pow2(1) == 2;
      acc := Or(acc * 2, bits[b]);
    }
    assert bits[..8] == bits;
    BitsNatBound(bits);
    assert Pow2(8) == 256;
    byte := acc;
  }

  method PackLoop(allBits: seq<Bit>, ghost n: nat) returns (bytes: seq<Byte>)
    requires |allBits| == 8 * n
    ensures bytes == Pack(allBits, n)
  {
    bytes := [];
    var i := 0;
    ghost var k := 0;
    while i < |allBits|
      invariant i == 8 * k && k <= n
      invariant bytes == Pack(allBits[..i], k)
    {
      var byte := PackByte(allBits[i..i + 8]);
      assert allBits[..i + 8][..i] == allBits[..i] && allBits[..i + 8][i..] == allBits[i..i + 8];
      bytes := bytes + [byte];
      i, k := i + 8, k + 1;
    }
    assert allBits[..|allBits|] == allBits;
  }

  lemma NextWord(allBits: seq<Bit>, val: nat, ws: seq<nat>, i: nat)
    requires i < |ws| && val == ws[i] && |allBits| == 8 * (WORD * i)
    requires Pack(allBits, WORD * i) == Concat(ws[..i])
    ensures Pack(allBits + BitsMsb(val, 8 * WORD), WORD * i + WORD) == Concat(ws[..i + 1])
  {
    PackAppend(allBits, WORD * i, BitsMsb(val, 8 * WORD), WORD);
    PackBits(val, WORD);
    assert ws[..i + 1][..i] == ws[..i];
  }

  /** The bits of all slots. */
  method AllBits(commitments: seq<nat>, batchSize: nat, max: nat) returns (allBits: seq<Bit>)
    requires batchSize <= |commitments| && batchSize <= max
    ensures |allBits| == 8 * (WORD * max)
    ensures Pack(allBits, WORD * max) == Concat(PaddedBatch(commitments, batchSize, max))
  {
    ghost var ws := PaddedBatch(commitments, batchSize, max);
    allBits := [];
    for i := 0 to max
      invariant |allBits| == 8 * (WORD * i)
      invariant Pack(allBits, WORD * i) == Concat(ws[..i])
    {
      var val := if i < batchSize then commitments[i] else 0;
      PaddedAt(commitments, batchSize, max, i);
      var bits := LowBits(val, 8 * WORD);
      NextWord(allBits, val, ws, i);
      allBits := allBits + bits;
    }
    assert ws[..max] == ws;
  }

  /** The circuit script's hash: at most max slots, inactive ones zero, bit by bit. */
  method ComputeHash(sha256: Digest, commitments: seq<nat>, batchSize: nat, max: nat) returns (hash: nat)
    requires batchSize <= |commitments| && batchSize <= max
    ensures hash == CommitmentsHash(sha256, commitments, batchSize, max)
    ensures forall pre :: IsPreimage(pre, commitments, batchSize, max) ==> hash == NatOf(sha256(pre)) % TWO_253
  {
    HashOf(sha256, commitments, batchSize, max);
    var allBits := AllBits(commitments, batchSize, max);
    var bytes := PackLoop(allBits, WORD * max);
    var digest := sha256(bytes);
    var value := BytesToBigIntBE(digest);
    hash := And(value, MASK_253);
  }

  // ----- one commitment, reduced -----

  /** The settlement script's hash: reduces the commitment modulo P and clears the digest's top
      three bits. */
  method SettleOneHash(sha256: Digest, commitment: nat) returns (hash: nat)
    requires commitment < TWO_256 && IsDigest(sha256)
    ensures hash == CommitmentsHash(sha256, [commitment % FIELD_P], 1, 1)
    ensures hash == NatOf(sha256(ToBytes(commitment % FIELD_P, 32))) % TWO_253
  {
    var reduced, _ := ReduceModP(commitment);
    var digest := sha256(reduced);
    MaskIsClear(digest);
    hash := BytesToBigIntBE([ClearTop(digest[0])] + digest[1..]);
    SingleWord(commitment % FIELD_P);
    MaskMod(NatOf(digest));
  }

  lemma SingleWord(w: nat)
    ensures Preimage([w], 1, 1) == ToBytes(w, WORD)
  {
    var ws := PaddedBatch([w], 1, 1);
    assert ws == [w];
    assert ws[..0] == [];
    assert Concat(ws) == Concat([]) + ToBytes(w, WORD);
  }

  lemma SameWord(v: nat, w: nat)
    requires v < TWO_256 && w < TWO_256
    ensures Preimage([v], 1, 1) == Preimage([w], 1, 1) <==> v == w
  {
    SingleWord(v);
    SingleWord(w);
    Pow32();
    ToBytesInjective(v, w, WORD);
  }

  lemma ReducedModP(v: nat, reduced: nat)
    requires reduced == v % FIELD_P
    ensures reduced <= v && (reduced == v <==> v < FIELD_P)
  {}

  /** Below P the script hashes what the relayer hashes; from P on the preimages differ. */
  lemma ScriptAgreesBelowP(sha256: Digest, commitment: nat, reduced: nat)
    requires commitment < TWO_256 && reduced == commitment % FIELD_P
    ensures Preimage([reduced], 1, 1) == Preimage([commitment], 1, 1) <==> commitment < FIELD_P
    ensures commitment < FIELD_P ==>
      CommitmentsHash(sha256, [reduced], 1, 1) == CommitmentsHash(sha256, [commitment], 1, 1)
  {
    SameWord(reduced, commitment);
    ReducedModP(commitment, reduced);
  }

  /** Every commitments hash is a scalar field element. */
  lemma HashIsFieldElement(sha256: Digest, commitments: seq<nat>, batchSize: nat, max: nat)
    requires IsDigest(sha256) && batchSize <= |commitments| && batchSize <= max
    ensures CommitmentsHash(sha256, commitments, batchSize, max) < SCALAR_ORDER
  {
    MaskIsClear(sha256(Preimage(commitments, batchSize, max)));
  }
}
