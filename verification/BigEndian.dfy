/** Big-endian byte strings: the encoders and decoders of the relayer, the settlement script's
    32-byte comparison, subtraction and reduction, and 253-bit masking. */
module BigEndian {
  import opened Arith
  import opened Bits
  import opened Merkle
  import opened Numerals

  type Byte = x: nat | x < 256

  /** The BN254 base field modulus, reduced by in the settlement script. */
  const FIELD_P: nat := 0x30644e72e131a029b85045b68181585d97816a916871ca8d3c208c16d87cfd47

  /** The BN254 scalar field order. */
  const SCALAR_ORDER: nat := 21888242871839275222246405745257275088548364400416034343698204186575808495617

  const P_0: seq<Byte> := [0x30, 0x64, 0x4e, 0x72, 0xe1, 0x31, 0xa0, 0x29]
  const P_1: seq<Byte> := [0xb8, 0x50, 0x45, 0xb6, 0x81, 0x81, 0x58, 0x5d]
  const P_2: seq<Byte> := [0x97, 0x81, 0x6a, 0x91, 0x68, 0x71, 0xca, 0x8d]
  const P_3: seq<Byte> := [0x3c, 0x20, 0x8c, 0x16, 0xd8, 0x7c, 0xfd, 0x47]
  const P_BYTES: seq<Byte> := P_0 + P_1 + P_2 + P_3

  /** 256^32, the number of 32-byte strings. */
  const TWO_256: nat := 0x1_0000000000000000_0000000000000000_0000000000000000_0000000000000000

  /** (1 << 253) - 1. */
  const MASK_253: nat := 0x1fffffffffffffff_ffffffffffffffff_ffffffffffffffff_ffffffffffffffff

  /** Bytes in a word. */
  const WORD: nat := 32

  /** Both moduli come from one parameter, as for every Barreto-Naehrig curve. */
  lemma CurveParameter()
    ensures
      var t := 4965661367192848881;
      && FIELD_P == 36 * t * t * t * t + 36 * t * t * t + 24 * t * t + 6 * t + 1
      && SCALAR_ORDER == 36 * t * t * t * t + 36 * t * t * t + 18 * t * t + 6 * t + 1
  {}

  function NatOf(s: seq<Byte>): nat {
    if s == [] then 0 else NatOf(s[..|s| - 1]) * 256 + s[|s| - 1]
  }

  /** The n low bytes of v, most significant first. */
  function ToBytes(v: nat, n: nat): (s: seq<Byte>)
    ensures |s| == n
    decreases n, v
  {
    if n == 0 then [] else ToBytes(v / 256, n - 1) + [v % 256]
  }

  lemma NatSnoc(s: seq<Byte>, b: Byte)
    ensures NatOf(s + [b]) == NatOf(s) * 256 + b
  {
    assert (s + [b])[..|s|] == s;
  }

  lemma {:induction false} NatBound(s: seq<Byte>)
    ensures NatOf(s) < Pow(256, |s|)
    decreases |s|
  {
    if s != [] { NatBound(s[..|s| - 1]); }
  }

  lemma {:induction false} ToBytesNat(v: nat, n: nat)
    requires v < Pow(256, n)
    ensures NatOf(ToBytes(v, n)) == v
    decreases n
  {
    if n > 0 {
      ToBytesNat(v / 256, n - 1);
      assert ToBytes(v, n)[..n - 1] == ToBytes(v / 256, n - 1);
    }
  }

  lemma {:induction false} NatToBytes(s: seq<Byte>)
    ensures ToBytes(NatOf(s), |s|) == s
    decreases |s|
  {
    if s != [] {
      NatToBytes(s[..|s| - 1]);
      assert NatOf(s) / 256 == NatOf(s[..|s| - 1]);
      assert s == s[..|s| - 1] + [s[|s| - 1]];
    }
  }

  /** Strings of one length have one value only if they are the same string. */
  lemma NatInjective(s: seq<Byte>, t: seq<Byte>)
    requires |s| == |t| && NatOf(s) == NatOf(t)
    ensures s == t
  {
    NatToBytes(s);
    NatToBytes(t);
  }

  lemma ToBytesInjective(v: nat, w: nat, n: nat)
    requires v < Pow(256, n) && w < Pow(256, n)
    ensures ToBytes(v, n) == ToBytes(w, n) <==> v == w
  {
    ToBytesNat(v, n);
    ToBytesNat(w, n);
  }

  lemma Pow32()
    ensures Pow(256, WORD) == TWO_256
  {
    PowAdd(256, 16, 16);
    PowAdd(256, 8, 8);
    assert Pow(256, 8) == 0x1_0000000000000000;
  }

  lemma {:induction false} NatAppend(s: seq<Byte>, t: seq<Byte>)
    ensures NatOf(s + t) == NatOf(s) * Pow(256, |t|) + NatOf(t)
    decreases |t|
  {
    if t == [] {
      assert s + t == s;
    } else {
      var t0, b := t[..|t| - 1], t[|t| - 1];
      assert (s + t)[..|s + t| - 1] == s + t0;
      NatAppend(s, t0);
      Rotate(NatOf(s), Pow(256, |t0|), 256);
    }
  }

  /** bytesToBigIntBE: shift left by eight, or in the next byte. */
  method BytesToBigIntBE(bytes: seq<Byte>) returns (result: nat)
    ensures result == NatOf(bytes)
  {
    result := 0;
    for i := 0 to |bytes|
      invariant result == NatOf(bytes[..i])
    {
      OrLow(result, bytes[i], 8);
      assert Pow2(8) == 256;
      assert bytes[..i + 1][..i] == bytes[..i];
      result := Or(result * 256, bytes[i]);
    }
    assert bytes[..|bytes|] == bytes;
  }

  // ----- the two encoders -----

  /** Two hex digits at a time make the bytes of the hex string's value. */
  lemma HexPair(hex: string, i: nat, out: seq<Byte>)
    requires 2 * i + 2 <= |hex| && NatOf(out) == Value(hex[..2 * i], 16)
    ensures Value(hex[2 * i..2 * i + 2], 16) < 256
    ensures NatOf(out + [Value(hex[2 * i..2 * i + 2], 16)]) == Value(hex[..2 * i + 2], 16)
  {
    var c, d := hex[2 * i], hex[2 * i + 1];
    var pair := hex[2 * i..2 * i + 2];
    assert pair == [c] + [d] && [] + [c] == [c];
    ValueSnoc([], c, 16);
    ValueSnoc([c], d, 16);
    var v := Value(pair, 16);
    assert hex[..2 * i + 1] == hex[..2 * i] + [c] && hex[..2 * i + 2] == hex[..2 * i + 1] + [d];
    ValueSnoc(hex[..2 * i], c, 16);
    ValueSnoc(hex[..2 * i + 1], d, 16);
    assert (out + [v])[..|out|] == out;
  }

  /** The current encoder: pads the hex numeral to 64 digits and parses it pair by pair. */
  method FeToBytes32BE(value: nat) returns (bytes: seq<Byte>)
    requires value < TWO_256
    ensures bytes == ToBytes(value, WORD)
  {
    var hex := PadStart(Numeral(value, 16), 64);
    HexFits(value);
    bytes := [];
    for i := 0 to 32
      invariant |bytes| == i && NatOf(bytes) == Value(hex[..2 * i], 16)
    {
      HexPair(hex, i, bytes);
      bytes := bytes + [Value(hex[2 * i..2 * i + 2], 16)];
    }
    assert hex[..64] == hex;
    NatToBytes(bytes);
  }

  lemma HexFits(value: nat)
    requires value < TWO_256
    ensures |PadStart(Numeral(value, 16), 64)| == 64
    ensures Value(PadStart(Numeral(value, 16), 64), 16) == value
  {
    Pow16();
    NumeralLength(value, 16, 64);
    NumeralRoundTrip(value, 16);
    PadStartValue(Numeral(value, 16), 64, 16);
  }

  lemma Pow16()
    ensures Pow(16, 64) == TWO_256
  {
    PowAdd(16, 32, 32);
    PowAdd(16, 16, 16);
    PowAdd(16, 8, 8);
    assert Pow(16, 8) == 0x1_0000_0000;
  }

  /** JavaScript's remainder, which takes the sign of the dividend. */
  function JsRem(a: int, b: nat): int
    requires b > 0
  {
    if a >= 0 then a % b else -((-a) % b)
  }

  lemma ReduceTwice(value: int)
    ensures JsRem(JsRem(value, SCALAR_ORDER) + SCALAR_ORDER, SCALAR_ORDER) == value % SCALAR_ORDER
  {
    var r := value % SCALAR_ORDER;
    if value < 0 { NegativeRem(value, r, value / SCALAR_ORDER); }
    assert JsRem(value, SCALAR_ORDER) == r || JsRem(value, SCALAR_ORDER) == r - SCALAR_ORDER;
    assert (r + SCALAR_ORDER) % SCALAR_ORDER == r;
  }

  lemma NegativeRem(value: int, r: nat, q: int)
    requires value < 0 && value == q * SCALAR_ORDER + r && r < SCALAR_ORDER
    ensures JsRem(value, SCALAR_ORDER) == if r == 0 then 0 else r - SCALAR_ORDER
  {
    if r == 0 {
      assert -value == -q * SCALAR_ORDER;
    } else {
      assert -value == (-q - 1) * SCALAR_ORDER + (SCALAR_ORDER - r);
    }
  }

  lemma PeelByte(v: nat, n: nat, out: seq<Byte>)
    requires n > 0
    ensures ToBytes(v, n) + out == ToBytes(v / 256, n - 1) + ([v % 256] + out)
    ensures And(v, 255) == v % 256
  {
    AndMask(v, 8, v / 256, v % 256);
    assert Pow2(8) == 256;
  }

  /** The first encoder: reduces modulo the scalar order, then peels bytes from the low end. */
  method FeToBytes32BEReducing(value: int) returns (out: seq<Byte>)
    ensures out == ToBytes(value % SCALAR_ORDER, WORD)
  {
    ReduceTwice(value);
    out := PeelBytes(JsRem(JsRem(value, SCALAR_ORDER) + SCALAR_ORDER, SCALAR_ORDER));
  }

  /** The loop of the first encoder. */
  method PeelBytes(value: nat) returns (out: seq<Byte>)
    ensures out == ToBytes(value, WORD)
  {
    var v := value;
    out := [];
    for i := 0 to 32
      invariant |out| == i
      invariant ToBytes(value, WORD) == ToBytes(v, WORD - i) + out
    {
      PeelByte(v, WORD - i, out);
      out := [And(v, 255)] + out;
      v := v / 256;
    }
  }

  lemma ReducedIsSame(value: nat, reduced: nat)
    requires reduced == value % SCALAR_ORDER
    ensures reduced <= value && (reduced == value <==> value < SCALAR_ORDER)
  {}

  /** Both encoders on one value: each keeps it, or its remainder, and they agree exactly below the
      scalar order. */
  method EncodersAgreeBelowOrder(value: nat) returns (current: seq<Byte>, first: seq<Byte>)
    requires value < TWO_256
    ensures |current| == |first| == WORD && NatOf(current) == value && NatOf(first) == value % SCALAR_ORDER
    ensures current == first <==> value < SCALAR_ORDER
  {
    current := FeToBytes32BE(value);
    first := FeToBytes32BEReducing(value);
    ghost var reduced := value % SCALAR_ORDER;
    ReducedIsSame(value, reduced);
    Pow32();
    ToBytesNat(value, WORD);
    ToBytesNat(reduced, WORD);
  }

  // ----- compare, subtract, reduce -----

  lemma LexGreater(x: nat, y: nat, p: nat, s: nat, t: nat)
    requires x > y && t < p
    ensures x * p + s > y * p + t
  {
    MulStep(p, y, x);
  }

  lemma FirstDifference(a: seq<Byte>, b: seq<Byte>, i: nat)
    requires |a| == |b| && i < |a| && a[..i] == b[..i] && a[i] > b[i]
    ensures NatOf(a) > NatOf(b)
  {
    var x, y, s, t := a[..i] + [a[i]], a[..i] + [b[i]], a[i + 1..], b[i + 1..];
    assert a == x + s && b == y + t;
    NatSnoc(a[..i], a[i]);
    NatSnoc(a[..i], b[i]);
    NatAppend(x, s);
    NatAppend(y, t);
    NatBound(t);
    LexGreater(NatOf(x), NatOf(y), Pow(256, |t|), NatOf(s), NatOf(t));
  }

  /** Decides the numeric order. */
  method IsGteBigEndian(a: seq<Byte>, b: seq<Byte>) returns (gte: bool)
    requires |a| == |b| == 32
    ensures gte <==> NatOf(a) >= NatOf(b)
  {
    for i := 0 to 32
      invariant a[..i] == b[..i]
    {
      if a[i] > b[i] {
        FirstDifference(a, b, i);
        return true;
      }
      if a[i] < b[i] {
        FirstDifference(b, a, i);
        return false;
      }
      assert a[..i + 1] == a[..i] + [a[i]] && b[..i + 1] == b[..i] + [b[i]];
    }
    assert a[..32] == a && b[..32] == b;
    gte := true;
  }

  lemma NatOne(x: Byte)
    ensures NatOf([x]) == x
  {
    assert [x][..0] == [];
  }

  lemma HeadTail(s: seq<Byte>, i: nat)
    requires i < |s|
    ensures s[i..] == [s[i]] + s[i + 1..]
  {}

  lemma NatCons(x: Byte, s: seq<Byte>)
    ensures NatOf([x] + s) == x * Pow(256, |s|) + NatOf(s)
  {
    NatOne(x);
    NatAppend([x], s);
  }

  lemma ColumnSum(a: int, b: int, borrow: int, digit: int, borrow': int, p: int, q: int)
    requires a - b - borrow == digit - 256 * borrow' && q == 256 * p
    ensures digit * p + b * p + borrow * p == a * p + borrow' * q
  {
    assert borrow' * q == (256 * borrow') * p;
    assert digit * p == (a - b - borrow + 256 * borrow') * p;
  }

  /** The low columns of a - b: the result digits `tail` and the borrow they leave. */
  ghost predicate Columns(a: seq<Byte>, b: seq<Byte>, tail: seq<Byte>, borrow: nat) {
    && |a| == |b| == 32 && |tail| <= 32
    && NatOf(tail) + NatOf(b[32 - |tail|..]) == NatOf(a[32 - |tail|..]) + borrow * Pow(256, |tail|)
  }

  lemma ColumnStep(a: seq<Byte>, b: seq<Byte>, tail: seq<Byte>, borrow: nat, digit: Byte, borrow': nat)
    requires Columns(a, b, tail, borrow) && |tail| < 32
    requires a[31 - |tail|] - b[31 - |tail|] - borrow == digit - 256 * borrow'
    ensures Columns(a, b, [digit] + tail, borrow')
  {
    var i := 31 - |tail|;
    HeadTail(a, i);
    HeadTail(b, i);
    NatCons(a[i], a[i + 1..]);
    NatCons(b[i], b[i + 1..]);
    NatCons(digit, tail);
    ColumnSum(a[i], b[i], borrow, digit, borrow', Pow(256, |tail|), Pow(256, |tail| + 1));
  }

  lemma Bound32(s: seq<Byte>)
    requires |s| == 32
    ensures NatOf(s) < TWO_256
  {
    NatBound(s);
    Pow32();
  }

  lemma ColumnsDone(a: seq<Byte>, b: seq<Byte>, r: seq<Byte>, borrow: nat)
    requires Columns(a, b, r, borrow) && |r| == 32 && borrow <= 1
    ensures NatOf(r) == if NatOf(a) >= NatOf(b) then NatOf(a) - NatOf(b) else NatOf(a) - NatOf(b) + TWO_256
  {
    assert a[0..] == a && b[0..] == b;
    Bound32(r);
    Bound32(a);
    Bound32(b);
    Pow32();
  }

  /** Subtracts modulo 2^256, from the last byte to the first, with a borrow. */
  method SubBigEndian(a: seq<Byte>, b: seq<Byte>) returns (result: array<Byte>)
    requires |a| == |b| == 32
    ensures fresh(result) && result.Length == 32
    ensures NatOf(result[..]) == if NatOf(a) >= NatOf(b) then NatOf(a) - NatOf(b) else NatOf(a) - NatOf(b) + TWO_256
  {
    result := new Byte[32](_ => 0);
    var borrow: nat := 0;
    var i := 31;
    ghost var tail: seq<Byte> := [];
    while i >= 0
      invariant -1 <= i <= 31 && 0 <= borrow <= 1
      invariant result[i + 1..] == tail && Columns(a, b, tail, borrow)
    {
      var diff := (a[i] as int) - (b[i] as int) - borrow;
      var borrow': nat := if diff < 0 then 1 else 0;
      result[i] := if diff < 0 then diff + 256 else diff;
      ColumnStep(a, b, tail, borrow, result[i], borrow');
      tail := [result[i]] + tail;
      borrow := borrow';
      i := i - 1;
    }
    assert result[..] == tail;
    ColumnsDone(a, b, tail, borrow);
  }

  lemma NatTake(s: seq<Byte>, i: nat)
    requires i < |s|
    ensures NatOf(s[..i + 1]) == NatOf(s[..i]) * 256 + s[i]
  {
    assert s[..i + 1][..i] == s[..i];
  }

  /** The values of the four bytes, and of the eight bytes, from i on. */
  function Quad(s: seq<Byte>, i: nat): nat
    requires i + 4 <= |s|
  {
    ((s[i] as nat * 256 + s[i + 1]) * 256 + s[i + 2]) * 256 + s[i + 3]
  }

  function Word(s: seq<Byte>, i: nat): nat
    requires i + 8 <= |s|
  {
    Quad(s, i) * 0x1_0000_0000 + Quad(s, i + 4)
  }

  lemma NatTakeQuad(s: seq<Byte>, i: nat)
    requires i + 4 <= |s|
    ensures NatOf(s[..i + 4]) == NatOf(s[..i]) * 0x1_0000_0000 + Quad(s, i)
  {
    NatTake(s, i);
    NatTake(s, i + 1);
    NatTake(s, i + 2);
    NatTake(s, i + 3);
  }

  lemma NatOfWord(s: seq<Byte>, w: nat)
    requires |s| == 8 && w == Word(s, 0)
    ensures NatOf(s) == w
  {
    NatTakeQuad(s, 0);
    NatTakeQuad(s, 4);
    assert s[..0] == [] && s[..8] == s;
  }

  lemma AppendWord(s: seq<Byte>, t: seq<Byte>, v: nat, w: nat)
    requires |t| == 8 && NatOf(s) == v && w == Word(t, 0)
    ensures NatOf(s + t) == v * 0x1_0000000000000000 + w
  {
    NatOfWord(t, w);
    NatAppend(s, t);
    assert Pow(256, 8) == 0x1_0000000000000000;
  }

  lemma PBytes()
    ensures NatOf(P_BYTES) == FIELD_P
  {
    NatOfWord(P_0, 0x30644e72e131a029);
    AppendWord(P_0, P_1, 0x30644e72e131a029, 0xb85045b68181585d);
    AppendWord(P_0 + P_1, P_2, 0x30644e72e131a029_b85045b68181585d, 0x97816a916871ca8d);
    AppendWord(P_0 + P_1 + P_2, P_3, 0x30644e72e131a029_b85045b68181585d_97816a916871ca8d, 0x3c208c16d87cfd47);
  }

  /** Repeated subtraction reduces every 32-byte value modulo P, in at most five rounds. */
  method ReduceModP(value: nat) returns (bytes: seq<Byte>, rounds: nat)
    requires value < TWO_256
    ensures bytes == ToBytes(value % FIELD_P, WORD)
    ensures rounds == value / FIELD_P <= 5
  {
    bytes := FeToBytes32BE(value);
    rounds := 0;
    PBytes();
    Pow32();
    ToBytesNat(value, WORD);
    var gte := IsGteBigEndian(bytes, P_BYTES);
    while gte
      invariant |bytes| == 32 && value == NatOf(bytes) + rounds * FIELD_P
      invariant gte <==> NatOf(bytes) >= FIELD_P
      decreases NatOf(bytes)
    {
      var difference := SubBigEndian(bytes, P_BYTES);
      bytes := difference[..];
      rounds := rounds + 1;
      gte := IsGteBigEndian(bytes, P_BYTES);
    }
    NatToBytes(bytes);
    Remainder(value, NatOf(bytes), rounds);
  }

  lemma Remainder(value: nat, rest: nat, rounds: nat)
    requires value == rest + rounds * FIELD_P && rest < FIELD_P && value < TWO_256
    ensures value % FIELD_P == rest && value / FIELD_P == rounds <= 5
  {}

  // ----- 253 bits -----

  /** b * p + t divided by 32 * p, for a byte b and t below p. */
  lemma SplitByte(b: nat, p: nat, t: nat)
    requires t < p
    ensures b * p + t == 32 * p * (b / 32) + (b % 32 * p + t)
    ensures b % 32 * p + t < 32 * p
  {
    MulStep(p, b % 32, 32);
    assert b == 32 * (b / 32) + b % 32;
  }

  /** A byte with its top three bits cleared. */
  function ClearTop(b: Byte): (r: Byte)
    ensures r == b % 32
  {
    AndMask(b, 5, b / 32, b % 32);
    assert Pow2(5) == 32;
    And(b, 31)
  }

  /** Masking the digest's value with 2^253 - 1 and clearing the top three bits of its first byte
      give the same number, which is below the scalar order. */
  lemma MaskIsClear(digest: seq<Byte>)
    requires |digest| == 32
    ensures And(NatOf(digest), MASK_253) == NatOf([ClearTop(digest[0])] + digest[1..]) < SCALAR_ORDER
  {
    var d, low, t := digest[0], ClearTop(digest[0]), digest[1..];
    assert digest == [d] + t;
    NatCons(d, t);
    NatCons(low, t);
    NatBound(t);
    MaskSum(d, NatOf(t), NatOf(digest), NatOf([low] + t));
  }

  lemma MaskSum(d: Byte, t: nat, whole: nat, cleared: nat)
    requires t < Pow(256, 31)
    requires whole == d * Pow(256, 31) + t && cleared == d % 32 * Pow(256, 31) + t
    ensures And(whole, MASK_253) == cleared < SCALAR_ORDER
  {
    SplitByte(d, Pow(256, 31), t);
    MaskPower(253, 31);
    AndMask(whole, 253, d / 32, cleared);
  }

  lemma {:induction false} Pow2Add(m: nat, n: nat)
    ensures Pow2(m + n) == Pow2(m) * Pow2(n)
    decreases n
  {
    if n > 0 {
      Pow2Add(m, n - 1);
      assert Pow2(m + n) == 2 * Pow2(m + (n - 1));
    }
  }

  lemma {:induction false} Pow2Bytes(n: nat)
    ensures Pow2(8 * n) == Pow(256, n)
  {
    if n > 0 {
      Pow2Bytes(n - 1);
      Pow2Add(8 * (n - 1), 8);
      assert Pow2(8) == 256;
    }
  }

  lemma MaskPower(k: nat, n: nat)
    requires k == 253 && n == 31
    ensures Pow2(k) - 1 == MASK_253 && Pow2(k) == 32 * Pow(256, n) < SCALAR_ORDER
  {
    Pow2Bytes(n);
    Pow2Add(8 * n, k - 8 * n);
    assert Pow2(5) == 32;
    Pow32();
    assert Pow(256, n + 1) == 256 * Pow(256, n);
  }

  /** 2^253. */
  const TWO_253: nat := 0x2000000000000000_0000000000000000_0000000000000000_0000000000000000

  /** The mask keeps the remainder modulo 2^253. */
  lemma MaskMod(v: nat)
    ensures And(v, MASK_253) == v % TWO_253
  {
    MaskPower(253, 31);
    AndMask(v, 253, v / TWO_253, v % TWO_253);
  }

  // ----- public keys as scalars -----

  /** pubkeyToScalar: a zero byte followed by the first 31 bytes of the key. */
  method PubkeyToScalar(bytes: seq<Byte>) returns (result: nat)
    requires |bytes| == 32
    ensures result == NatOf(bytes[..31]) < SCALAR_ORDER
  {
    var scalarBytes: seq<Byte> := [0] + bytes[..31];
    result := 0;
    for i := 0 to 32
      invariant result == NatOf(scalarBytes[..i])
    {
      OrLow(result, scalarBytes[i], 8);
      assert Pow2(8) == 256;
      assert scalarBytes[..i + 1][..i] == scalarBytes[..i];
      result := Or(result * 256, scalarBytes[i]);
    }
    assert scalarBytes[..32] == scalarBytes;
    NatCons(0, bytes[..31]);
    NatBound(bytes[..31]);
    MaskPower(253, 31);
  }

  /** The scalar is always a field element, and two keys share one exactly if they agree on all
      but their last byte. */
  lemma ScalarsIdentifyPrefix(a: seq<Byte>, b: seq<Byte>)
    requires |a| == |b| == 32
    ensures NatOf(a[..31]) == NatOf(b[..31]) <==> a[..31] == b[..31]
  {
    if NatOf(a[..31]) == NatOf(b[..31]) { NatInjective(a[..31], b[..31]); }
  }
}
