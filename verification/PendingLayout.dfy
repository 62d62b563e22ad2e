/** The pending buffer account and the relayer's parser for it. */
module PendingLayout {
  import opened Results
  import opened Arith
  import opened BigEndian
  import opened AccountLayout

  /** A queued deposit; the timestamp is the raw 64 bits. */
  datatype Deposit = Deposit(commitment: seq<Byte>, timestamp: nat)

  datatype PendingAccount = PendingAccount(
    pool: seq<Byte>,
    deposits: seq<Deposit>,
    totalPending: nat,
    lastBatchAt: nat,
    totalBatchesProcessed: nat,
    totalDepositsBatched: nat,
    bump: Byte,
    version: Byte)

  function DepositAt(data: seq<Byte>, at: nat): Deposit
    requires at + 40 <= |data|
  {
    Deposit(data[at..at + 32], ReadLe(data, at + 32, 8))
  }

  function DepositsOf(data: seq<Byte>, n: nat): (d: seq<Deposit>)
    requires 44 + 40 * n <= |data|
    ensures |d| == n
    decreases n
  {
    if n == 0 then []
    else DepositsOf(data, n - 1) + [DepositAt(data, 44 + 40 * (n - 1))]
  }

  function PendingTail(data: seq<Byte>): nat
    requires |data| >= 44
  {
    44 + 40 * ReadLe(data, 40, 4)
  }

  predicate PendingFits(data: seq<Byte>) {
    |data| >= 44 && |data| >= PendingTail(data) + 30
  }

  function PendingOf(data: seq<Byte>): PendingAccount
    requires PendingFits(data)
  {
    var t := PendingTail(data);
    PendingAccount(data[8..40], DepositsOf(data, ReadLe(data, 40, 4)), ReadLe(data, t, 4), ReadLe(data, t + 4, 8),
                   ReadLe(data, t + 12, 8), ReadLe(data, t + 20, 8), data[t + 28], data[t + 29])
  }

  datatype ParsedDeposit = ParsedDeposit(commitment: nat, commitmentBytes: seq<Byte>, timestamp: int)

  function Parsed(d: Deposit): ParsedDeposit {
    ParsedDeposit(NatOf(d.commitment), d.commitment, Signed64(d.timestamp))
  }

  datatype ParsedPending = ParsedPending(
    pool: seq<Byte>,
    deposits: seq<ParsedDeposit>,
    totalPending: nat,
    lastBatchAt: int,
    totalBatchesProcessed: nat,
    totalDepositsBatched: nat,
    bump: Byte,
    version: Byte)

  /** d is what lies at an offset: 32 bytes, the number that they write in big-endian order, and the
      signed little-endian number in the next eight. */
  predicate DepositRead(data: seq<Byte>, at: nat, d: ParsedDeposit) {
    && at + 40 <= |data| && d.commitmentBytes == data[at..at + 32]
    && d.commitment < TWO_256 && ToBytes(d.commitment, 32) == d.commitmentBytes
    && -0x8000000000000000 <= d.timestamp < 0x8000000000000000
    && (d.timestamp == ReadLe(data, at + 32, 8) || d.timestamp == ReadLe(data, at + 32, 8) - 0x10000000000000000)
  }

  lemma ParsedIsRead(data: seq<Byte>, at: nat)
    requires at + 40 <= |data|
    ensures DepositRead(data, at, Parsed(DepositAt(data, at)))
  {
    var bytes := data[at..at + 32];
    NatToBytes(bytes);
    Bound32(bytes);
    LeNatBytes(data[at + 32..at + 40]);
    assert Pow(256, 8) == 0x10000000000000000;
  }

  lemma {:induction false} DepositsAt(data: seq<Byte>, n: nat, i: nat)
    requires 44 + 40 * n <= |data| && i < n
    ensures DepositsOf(data, n)[i] == DepositAt(data, 44 + 40 * i)
    decreases n
  {
    if i < n - 1 { DepositsAt(data, n - 1, i); }
  }

  /** The deposit loop. */
  method ParseDeposits(data: seq<Byte>, len: nat) returns (deposits: seq<ParsedDeposit>)
    requires 44 + 40 * len <= |data|
    ensures |deposits| == len
    ensures forall i :: 0 <= i < len ==> deposits[i] == Parsed(DepositsOf(data, len)[i])
  {
    deposits := [];
    var offset := 44;
    for i := 0 to len
      invariant offset == 44 + 40 * i && |deposits| == i
      invariant forall j :: 0 <= j < i ==> deposits[j] == Parsed(DepositsOf(data, i)[j])
    {
      var commitmentBytes := data[offset..offset + 32];
      var commitment := BytesToBigIntBE(commitmentBytes);
      deposits := deposits + [ParsedDeposit(commitment, commitmentBytes, Signed64(ReadLe(data, offset + 32, 8)))];
      offset := offset + 40;
    }
  }

  /** The relayer's parser returns exactly on buffers that hold the whole account. */
  method ParsePendingBufferAccount(data: seq<Byte>) returns (r: Result<ParsedPending>)
    ensures r.Ok? <==> PendingFits(data)
    ensures r.Ok? ==>
      var a := PendingOf(data);
      && r.value == ParsedPending(a.pool, r.value.deposits, a.totalPending, Signed64(a.lastBatchAt),
                                  a.totalBatchesProcessed, a.totalDepositsBatched, a.bump, a.version)
      && |r.value.deposits| == |a.deposits|
      && forall i :: 0 <= i < |a.deposits| ==> r.value.deposits[i] == Parsed(a.deposits[i])
    ensures r.Ok? ==> forall i :: 0 <= i < |r.value.deposits| ==> DepositRead(data, 44 + 40 * i, r.value.deposits[i])
  {
    if |data| < 44 { return Err; }
    var pool := data[8..40];
    var depositsLen := ReadLe(data, 40, 4);
    var offset := 44;
    if |data| < offset + depositsLen * 40 + 30 { return Err; }
    var deposits := ParseDeposits(data, depositsLen);
    offset := offset + depositsLen * 40;
    var totalPending := ReadLe(data, offset, 4);
    offset := offset + 4;
    var lastBatchAt := Signed64(ReadLe(data, offset, 8));
    offset := offset + 8;
    var totalBatchesProcessed := ReadLe(data, offset, 8);
    offset := offset + 8;
    var totalDepositsBatched := ReadLe(data, offset, 8);
    offset := offset + 8;
    var bump := data[offset];
    offset := offset + 1;
    var version := data[offset];
    forall i | 0 <= i < |deposits| ensures DepositRead(data, 44 + 40 * i, deposits[i]) {
      DepositsAt(data, depositsLen, i);
      ParsedIsRead(data, 44 + 40 * i);
    }
    r := Ok(ParsedPending(pool, deposits, totalPending, lastBatchAt, totalBatchesProcessed, totalDepositsBatched, bump, version));
  }

  // ----- the layout -----

  predicate WellFormed(a: PendingAccount) {
    && |a.pool| == 32 && |a.deposits| < Pow(256, 4)
    && (forall d <- a.deposits :: |d.commitment| == 32 && d.timestamp < Pow(256, 8))
    && a.totalPending < Pow(256, 4) && a.lastBatchAt < Pow(256, 8)
    && a.totalBatchesProcessed < Pow(256, 8) && a.totalDepositsBatched < Pow(256, 8)
  }

  function EncodeDeposits(ds: seq<Deposit>): seq<Byte> {
    if ds == [] then []
    else
      var last := ds[|ds| - 1];
      EncodeDeposits(ds[..|ds| - 1]) + (last.commitment + LeBytes(last.timestamp, 8))
  }

  function EncodeFooter(a: PendingAccount): seq<Byte> {
    LeBytes(a.totalPending, 4) + LeBytes(a.lastBatchAt, 8) + LeBytes(a.totalBatchesProcessed, 8)
      + LeBytes(a.totalDepositsBatched, 8) + [a.bump, a.version]
  }

  /** The bytes of a pending buffer after its discriminator. */
  function EncodePending(a: PendingAccount): seq<Byte> {
    (a.pool + LeBytes(|a.deposits|, 4)) + EncodeDeposits(a.deposits) + EncodeFooter(a)
  }

  lemma {:induction false} DepositsLength(ds: seq<Deposit>)
    requires forall d <- ds :: |d.commitment| == 32
    ensures |EncodeDeposits(ds)| == 40 * |ds|
    decreases |ds|
  {
    if ds != [] {
      assert ds[|ds| - 1] in ds;
      DepositsLength(ds[..|ds| - 1]);
    }
  }

  lemma DepositSlice(data: seq<Byte>, at: nat, d: Deposit)
    requires |d.commitment| == 32 && d.timestamp < Pow(256, 8) && at + 40 <= |data|
    ensures SliceIs(data, at, d.commitment + LeBytes(d.timestamp, 8)) <==> DepositAt(data, at) == d
  {
    SliceAppend(data, at, d.commitment, LeBytes(d.timestamp, 8));
    SliceMeaning(data, at, d.commitment);
    LeSlice(data, at + 32, 8, d.timestamp);
  }

  lemma SplitLast(data: seq<Byte>, ds: seq<Deposit>, at: nat)
    requires ds != [] && forall d <- ds :: |d.commitment| == 32
    requires at == 44 + 40 * (|ds| - 1)
    ensures
      var front, last := ds[..|ds| - 1], ds[|ds| - 1];
      SliceIs(data, 44, EncodeDeposits(ds)) <==>
        SliceIs(data, 44, EncodeDeposits(front)) && SliceIs(data, at, last.commitment + LeBytes(last.timestamp, 8))
  {
    var front, last := ds[..|ds| - 1], ds[|ds| - 1];
    DepositsLength(front);
    SliceAppend(data, 44, EncodeDeposits(front), last.commitment + LeBytes(last.timestamp, 8));
  }

  lemma DepositsNext(data: seq<Byte>, n: nat, at: nat)
    requires at == 44 + 40 * n && at + 40 <= |data|
    ensures DepositsOf(data, n + 1) == DepositsOf(data, n) + [DepositAt(data, at)]
  {}

  lemma DepositsSnoc(data: seq<Byte>, ds: seq<Deposit>, at: nat)
    requires ds != [] && at == 44 + 40 * (|ds| - 1) && at + 40 <= |data|
    ensures DepositsOf(data, |ds|) == ds <==>
      DepositsOf(data, |ds| - 1) == ds[..|ds| - 1] && DepositAt(data, at) == ds[|ds| - 1]
  {
    DepositsNext(data, |ds| - 1, at);
    SnocEqual(DepositsOf(data, |ds| - 1), DepositAt(data, at), ds);
  }

  lemma {:induction false} DepositsSlice(data: seq<Byte>, ds: seq<Deposit>)
    requires forall d <- ds :: |d.commitment| == 32 && d.timestamp < Pow(256, 8)
    requires 44 + 40 * |ds| <= |data|
    ensures SliceIs(data, 44, EncodeDeposits(ds)) <==> DepositsOf(data, |ds|) == ds
    decreases |ds|
  {
    if ds != [] {
      var n := |ds| - 1;
      var front, last := ds[..n], ds[n];
      var at, bytes := 44 + 40 * n, last.commitment + LeBytes(last.timestamp, 8);
      assert last in ds;
      calc <==> {
        SliceIs(data, 44, EncodeDeposits(ds));
        { SplitLast(data, ds, at); }
        SliceIs(data, 44, EncodeDeposits(front)) && SliceIs(data, at, bytes);
        { DepositsSlice(data, front); DepositSlice(data, at, last); }
        DepositsOf(data, n) == front && DepositAt(data, at) == last;
        { DepositsSnoc(data, ds, at); }
        DepositsOf(data, |ds|) == ds;
      }
    }
  }

  predicate FooterAt(data: seq<Byte>, t: nat, a: PendingAccount) {
    && t + 30 <= |data|
    && ReadLe(data, t, 4) == a.totalPending && ReadLe(data, t + 4, 8) == a.lastBatchAt
    && ReadLe(data, t + 12, 8) == a.totalBatchesProcessed && ReadLe(data, t + 20, 8) == a.totalDepositsBatched
    && data[t + 28] == a.bump && data[t + 29] == a.version
  }

  lemma FooterSlice(data: seq<Byte>, t: nat, a: PendingAccount)
    requires WellFormed(a)
    ensures SliceIs(data, t, EncodeFooter(a)) <==> FooterAt(data, t, a)
  {
    SliceAppend5(data, LeBytes(a.totalPending, 4), LeBytes(a.lastBatchAt, 8), LeBytes(a.totalBatchesProcessed, 8),
                 LeBytes(a.totalDepositsBatched, 8), [a.bump, a.version], t, t + 4, t + 12, t + 20, t + 28);
    LeSlice(data, t, 4, a.totalPending);
    LeSlice(data, t + 4, 8, a.lastBatchAt);
    LeSlice(data, t + 12, 8, a.totalBatchesProcessed);
    LeSlice(data, t + 20, 8, a.totalDepositsBatched);
    SliceMeaning(data, t + 28, [a.bump, a.version]);
    if t + 30 <= |data| {
      assert data[t + 28..t + 30] == [data[t + 28], data[t + 29]];
    }
  }

  predicate PendingAt(data: seq<Byte>, a: PendingAccount, t: nat) {
    && 44 <= |data| && data[8..40] == a.pool && ReadLe(data, 40, 4) == |a.deposits|
    && t == 44 + 40 * |a.deposits| <= |data| && DepositsOf(data, |a.deposits|) == a.deposits
    && FooterAt(data, t, a)
  }

  lemma PendingHead(data: seq<Byte>, pool: seq<Byte>, n: nat)
    requires |pool| == 32 && n < Pow(256, 4)
    ensures |pool + LeBytes(n, 4)| == 36
    ensures SliceIs(data, 8, pool + LeBytes(n, 4)) <==>
      44 <= |data| && data[8..40] == pool && ReadLe(data, 40, 4) == n
  {
    SliceAppend(data, 8, pool, LeBytes(n, 4));
    SliceMeaning(data, 8, pool);
    LeSlice(data, 40, 4, n);
  }

  lemma PendingSlices(data: seq<Byte>, a: PendingAccount, t: nat)
    requires WellFormed(a) && t == 44 + 40 * |a.deposits|
    ensures SliceIs(data, 8, EncodePending(a)) <==> PendingAt(data, a, t)
  {
    DepositsLength(a.deposits);
    SliceAppend3(data, 8, a.pool + LeBytes(|a.deposits|, 4), EncodeDeposits(a.deposits), EncodeFooter(a));
    PendingHead(data, a.pool, |a.deposits|);
    FooterSlice(data, t, a);
    if t <= |data| { DepositsSlice(data, a.deposits); }
  }

  lemma PendingIsAt(data: seq<Byte>, a: PendingAccount, t: nat)
    requires PendingFits(data) && PendingOf(data) == a && t == 44 + 40 * |a.deposits|
    ensures PendingAt(data, a, t)
  {
    assert PendingTail(data) == t;
  }

  /** A buffer holds the encoding of a pending account after the discriminator exactly when the
      relayer accepts it and finds that account. */
  lemma PendingLayoutExact(data: seq<Byte>, a: PendingAccount)
    requires WellFormed(a)
    ensures SliceIs(data, 8, EncodePending(a)) <==> PendingFits(data) && PendingOf(data) == a
  {
    var t := 44 + 40 * |a.deposits|;
    PendingSlices(data, a, t);
    if PendingAt(data, a, t) { PendingHolds(data, a, t); }
    if PendingFits(data) && PendingOf(data) == a { PendingIsAt(data, a, t); }
  }

  lemma PendingHolds(data: seq<Byte>, a: PendingAccount, t: nat)
    requires PendingAt(data, a, t)
    ensures PendingFits(data) && PendingOf(data) == a
  {
    assert PendingTail(data) == t;
  }

  /** Parsing the encoding of an account gives its fields back: each commitment's bytes and the number
      that they write in big-endian order, and the signed timestamps. */
  method PendingRoundTrip(data: seq<Byte>, a: PendingAccount) returns (r: Result<ParsedPending>)
    requires WellFormed(a) && SliceIs(data, 8, EncodePending(a))
    ensures r.Ok? && |r.value.deposits| == |a.deposits|
    ensures r.value.pool == a.pool && r.value.totalPending == a.totalPending
    ensures r.value.totalBatchesProcessed == a.totalBatchesProcessed
    ensures r.value.totalDepositsBatched == a.totalDepositsBatched
    ensures r.value.bump == a.bump && r.value.version == a.version
    ensures forall i :: 0 <= i < |a.deposits| ==>
      var d := r.value.deposits[i];
      && d.commitmentBytes == a.deposits[i].commitment
      && d.commitment < TWO_256 && ToBytes(d.commitment, 32) == a.deposits[i].commitment
      && d.timestamp == if a.deposits[i].timestamp < 0x8000000000000000 then a.deposits[i].timestamp
                        else a.deposits[i].timestamp - 0x10000000000000000
  {
    r := ParsePendingBufferAccount(data);
    PendingLayoutExact(data, a);
    forall i | 0 <= i < |a.deposits| ensures DepositRead(data, 44 + 40 * i, r.value.deposits[i]) {
      DepositsAt(data, |a.deposits|, i);
      assert DepositAt(data, 44 + 40 * i) == a.deposits[i];
    }
  }
}
