/** The 256-byte form of a Groth16 proof: G1 points as (x, y), the G2 point with each pair of
    coordinates written imaginary part first. */
module ProofCodec {
  import opened Results
  import opened BigEndian
  import opened Words

  /** The eight coordinates; b01 stands for pi_b[0][1], and so on. */
  datatype Proof = Proof(a0: nat, a1: nat, b00: nat, b01: nat, b10: nat, b11: nat, c0: nat, c1: nat)

  predicate Fits(p: Proof) {
    && p.a0 < TWO_256 && p.a1 < TWO_256 && p.c0 < TWO_256 && p.c1 < TWO_256
    && p.b00 < TWO_256 && p.b01 < TWO_256 && p.b10 < TWO_256 && p.b11 < TWO_256
  }

  function Order(p: Proof): seq<nat> {
    [p.a0, p.a1, p.b01, p.b00, p.b11, p.b10, p.c0, p.c1]
  }

  /** Uint8Array.set: copies src into the buffer at an offset. */
  method SetAt(buffer: array<Byte>, src: seq<Byte>, offset: nat)
    requires offset + |src| <= buffer.Length
    modifies buffer
    ensures buffer[..] == old(buffer[..offset]) + src + old(buffer[offset + |src|..])
  {
    for i := 0 to |src|
      invariant forall j :: 0 <= j < buffer.Length ==>
        buffer[j] == if offset <= j < offset + i then src[j - offset] else old(buffer[j])
    {
      buffer[offset + i] := src[i];
    }
  }

  /** Writes one coordinate at its offset, behind those already written. */
  method PutWord(buffer: array<Byte>, value: nat, offset: nat, ghost ws: seq<nat>, ghost k: nat)
    requires k < |ws| && value == ws[k] < TWO_256 && offset == WORD * k && offset + WORD <= buffer.Length
    requires buffer[..offset] == Concat(ws[..k])
    modifies buffer
    ensures buffer[..offset + WORD] == Concat(ws[..k + 1])
  {
    var bytes := FeToBytes32BE(value);
    SetAt(buffer, bytes, offset);
    assert ws[..k + 1][..k] == ws[..k];
    assert buffer[..offset + WORD] == old(buffer[..offset]) + bytes;
  }

  /** Two words: a G1 point, or one coordinate pair of the G2 point. */
  method PutPair(buffer: array<Byte>, x: nat, y: nat, offset: nat, ghost ws: seq<nat>, ghost k: nat)
    requires k + 1 < |ws| && x == ws[k] < TWO_256 && y == ws[k + 1] < TWO_256
    requires offset == WORD * k && offset + 2 * WORD <= buffer.Length
    requires buffer[..offset] == Concat(ws[..k])
    modifies buffer
    ensures buffer[..offset + 2 * WORD] == Concat(ws[..k + 2])
  {
    PutWord(buffer, x, offset, ws, k);
    PutWord(buffer, y, offset + WORD, ws, k + 1);
  }

  lemma ProofSlices(p: Proof, s: seq<Byte>)
    requires s == ProofBytes(p)
    ensures s[0..32] == ToBytes(p.a0, 32) && s[32..64] == ToBytes(p.a1, 32)
    ensures s[64..96] == ToBytes(p.b01, 32) && s[96..128] == ToBytes(p.b00, 32)
    ensures s[128..160] == ToBytes(p.b11, 32) && s[160..192] == ToBytes(p.b10, 32)
    ensures s[192..224] == ToBytes(p.c0, 32) && s[224..256] == ToBytes(p.c1, 32)
  {
    forall i: nat | i < 8 ensures s[32 * i..32 * i + 32] == ToBytes(Order(p)[i], 32) {
      ConcatAt(Order(p), i);
    }
    assert s[32 * 0..32 * 0 + 32] == ToBytes(Order(p)[0], 32);
    assert s[32 * 1..32 * 1 + 32] == ToBytes(Order(p)[1], 32);
    assert s[32 * 2..32 * 2 + 32] == ToBytes(Order(p)[2], 32);
    assert s[32 * 3..32 * 3 + 32] == ToBytes(Order(p)[3], 32);
    assert s[32 * 4..32 * 4 + 32] == ToBytes(Order(p)[4], 32);
    assert s[32 * 5..32 * 5 + 32] == ToBytes(Order(p)[5], 32);
    assert s[32 * 6..32 * 6 + 32] == ToBytes(Order(p)[6], 32);
    assert s[32 * 7..32 * 7 + 32] == ToBytes(Order(p)[7], 32);
  }

  method SerializeGroth16Proof(p: Proof) returns (proofBytes: array<Byte>)
    requires Fits(p)
    ensures fresh(proofBytes) && proofBytes[..] == ProofBytes(p)
    ensures proofBytes.Length == 256
    ensures proofBytes[0..32] == ToBytes(p.a0, 32) && proofBytes[32..64] == ToBytes(p.a1, 32)
    ensures proofBytes[64..96] == ToBytes(p.b01, 32) && proofBytes[96..128] == ToBytes(p.b00, 32)
    ensures proofBytes[128..160] == ToBytes(p.b11, 32) && proofBytes[160..192] == ToBytes(p.b10, 32)
    ensures proofBytes[192..224] == ToBytes(p.c0, 32) && proofBytes[224..256] == ToBytes(p.c1, 32)
  {
    proofBytes := new Byte[256](_ => 0);
    ghost var ws := Order(p);
    assert ws[..0] == [];
    PutPair(proofBytes, p.a0, p.a1, 0, ws, 0);
    PutPair(proofBytes, p.b01, p.b00, 64, ws, 2);
    PutPair(proofBytes, p.b11, p.b10, 128, ws, 4);
    PutPair(proofBytes, p.c0, p.c1, 192, ws, 6);
    assert ws[..8] == ws && proofBytes[..256] == proofBytes[..];
    ProofSlices(p, proofBytes[..]);
  }

  /** Only 256 bytes are a proof. */
  function DeserializeGroth16Proof(proofData: seq<Byte>): Result<Proof> {
    if |proofData| != 256 then Err
    else
      Ok(Proof(
        WordAt(proofData, 0), WordAt(proofData, 1),
        WordAt(proofData, 3), WordAt(proofData, 2), WordAt(proofData, 5), WordAt(proofData, 4),
        WordAt(proofData, 6), WordAt(proofData, 7)))
  }

  /** The bytes of a proof, in the order the serializer writes them. */
  function ProofBytes(p: Proof): (s: seq<Byte>)
    ensures |s| == 256
  {
    Concat(Order(p))
  }

  /** Reading what was written gives back every coordinate, in spite of the swapped G2 order. */
  lemma SerializeThenDeserialize(p: Proof)
    requires Fits(p)
    ensures DeserializeGroth16Proof(ProofBytes(p)) == Ok(p)
  {
    var ws := Order(p);
    forall i: nat | i < 8 ensures WordAt(ProofBytes(p), i) == ws[i] {
      WordRoundTrip(ws, i);
    }
  }

  /** Writing what was read gives back every 256-byte string, and other lengths are refused. */
  lemma DeserializeThenSerialize(s: seq<Byte>)
    ensures DeserializeGroth16Proof(s).Ok? <==> |s| == 256
    ensures |s| == 256 ==>
      var p := DeserializeGroth16Proof(s).value;
      Fits(p) && ProofBytes(p) == s
  {
    if |s| == 256 {
      var p := DeserializeGroth16Proof(s).value;
      Pow32();
      forall i: nat | i < 8 ensures WordAt(s, i) < TWO_256 {
        NatBound(s[WORD * i..WORD * i + WORD]);
      }
      BytesRoundTrip(s, Order(p));
    }
  }
}
