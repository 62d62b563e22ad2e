/** The Borsh-style layout of the two on-chain accounts, the relayer's parsers, which check sizes
    before every read, and the app's parser, which relies on the buffer's own range checks. */
module AccountLayout {
  import opened Results
  import opened Arith
  import opened BigEndian

  // ----- little-endian integers -----

  function LeNat(s: seq<Byte>): nat {
    if s == [] then 0 else s[0] + 256 * LeNat(s[1..])
  }

  function LeBytes(v: nat, n: nat): (s: seq<Byte>)
    ensures |s| == n
    decreases n, v
  {
    if n == 0 then [] else [v % 256] + LeBytes(v / 256, n - 1)
  }

  lemma {:induction false} LeBytesNat(v: nat, n: nat)
    requires v < Pow(256, n)
    ensures LeNat(LeBytes(v, n)) == v
    decreases n
  {
    if n > 0 { LeBytesNat(v / 256, n - 1); }
  }

  lemma {:induction false} LeNatBytes(s: seq<Byte>)
    ensures LeBytes(LeNat(s), |s|) == s
    ensures LeNat(s) < Pow(256, |s|)
    decreases |s|
  {
    if s != [] { LeNatBytes(s[1..]); }
  }

  function Reversed(s: seq<Byte>): (r: seq<Byte>)
    ensures |r| == |s|
  {
    if s == [] then [] else Reversed(s[1..]) + [s[0]]
  }

  /** Little-endian is big-endian read backwards. */
  lemma {:induction false} LeIsReversed(s: seq<Byte>)
    ensures LeNat(s) == NatOf(Reversed(s))
    decreases |s|
  {
    if s != [] {
      LeIsReversed(s[1..]);
      NatSnoc(Reversed(s[1..]), s[0]);
    }
  }

  /** The n-byte unsigned integer at an offset. */
  function ReadLe(data: seq<Byte>, offset: nat, n: nat): nat
    requires offset + n <= |data|
  {
    LeNat(data[offset..offset + n])
  }

  /** An unsigned 64-bit value read as signed. */
  function Signed64(raw: nat): (v: int)
    ensures v == raw || v == raw - 0x10000000000000000
    ensures raw < 0x10000000000000000 ==> -0x8000000000000000 <= v < 0x8000000000000000
  {
    if raw < 0x8000000000000000 then raw else raw - 0x10000000000000000
  }

  /** n consecutive 32-byte entries. */
  function Entries32(data: seq<Byte>, offset: nat, n: nat): (v: seq<seq<Byte>>)
    requires offset + 32 * n <= |data|
    ensures |v| == n
    decreases n
  {
    if n == 0 then []
    else Entries32(data, offset, n - 1) + [data[offset + 32 * (n - 1)..offset + 32 * n]]
  }

  // ----- the tree account -----

  datatype TreeAccount = TreeAccount(
    pool: seq<Byte>,
    depth: Byte,
    nextLeafIndex: nat,
    currentRoot: seq<Byte>,
    rootHistory: seq<seq<Byte>>,
    rootHistoryIndex: nat,
    rootHistorySize: nat,
    filledSubtrees: seq<seq<Byte>>,
    zeros: seq<seq<Byte>>,
    totalLeaves: nat,
    lastInsertionAt: nat,       // the raw 64 bits
    version: Option<Byte>)      // None where the buffer ends just before it

  function FilledAt(data: seq<Byte>): nat
    requires |data| >= 81
  {
    81 + 32 * ReadLe(data, 77, 4) + 4
  }

  function ZerosAt(data: seq<Byte>): nat
    requires |data| >= 81 && |data| >= FilledAt(data) + 4
  {
    FilledAt(data) + 4 + 32 * ReadLe(data, FilledAt(data), 4)
  }

  function TailAt(data: seq<Byte>): nat
    requires |data| >= 81 && |data| >= FilledAt(data) + 4 && |data| >= ZerosAt(data) + 4
  {
    ZerosAt(data) + 4 + 32 * ReadLe(data, ZerosAt(data), 4)
  }

  /** The three vectors and the first n bytes of the trailing fields lie inside the buffer. */
  predicate TreeFits(data: seq<Byte>, n: nat) {
    && |data| >= 81 && |data| >= FilledAt(data) + 4 && |data| >= ZerosAt(data) + 4
    && |data| >= TailAt(data) + n
  }

  /** The account held by a buffer. */
  function TreeOf(data: seq<Byte>): TreeAccount
    requires TreeFits(data, 16)
  {
    var f, z, t := FilledAt(data), ZerosAt(data), TailAt(data);
    TreeAccount(
      data[8..40], data[40], ReadLe(data, 41, 4), data[45..77],
      Entries32(data, 81, ReadLe(data, 77, 4)), ReadLe(data, f - 4, 2), ReadLe(data, f - 2, 2),
      Entries32(data, f + 4, ReadLe(data, f, 4)), Entries32(data, z + 4, ReadLe(data, z, 4)),
      ReadLe(data, t, 8), ReadLe(data, t + 8, 8), if t + 16 < |data| then Some(data[t + 16]) else None)
  }

  datatype ParsedTree = ParsedTree(
    pool: seq<Byte>,
    depth: Byte,
    nextLeafIndex: nat,
    currentRoot: nat,
    currentRootBytes: seq<Byte>,
    rootHistoryIndex: nat,
    rootHistorySize: nat,
    totalLeaves: nat,
    lastInsertionAt: int,
    version: Byte)

  /** The relayer skips the three vectors and keeps only the history counters and the offset
      behind them. */
  method SkipVectors(data: seq<Byte>, start: nat) returns (r: Result<(nat, nat, nat)>)
    requires start == 77 <= |data|
    ensures r.Ok? <==> |data| >= 81 && |data| >= FilledAt(data) + 4 && |data| >= ZerosAt(data) + 4
    ensures r.Ok? ==>
      r.value == (ReadLe(data, FilledAt(data) - 4, 2), ReadLe(data, FilledAt(data) - 2, 2), TailAt(data))
  {
    var offset := start;
    if |data| < offset + 4 { return Err; }
    var rootHistoryLen := ReadLe(data, offset, 4);
    offset := offset + 4 + rootHistoryLen * 32;

    if |data| < offset + 4 { return Err; }
    var rootHistoryIndex := ReadLe(data, offset, 2);
    offset := offset + 2;
    var rootHistorySize := ReadLe(data, offset, 2);
    offset := offset + 2;
    assert offset == FilledAt(data);

    if |data| < offset + 4 { return Err; }
    var filledSubtreesLen := ReadLe(data, offset, 4);
    offset := offset + 4 + filledSubtreesLen * 32;
    assert offset == ZerosAt(data);

    if |data| < offset + 4 { return Err; }
    var zerosLen := ReadLe(data, offset, 4);
    offset := offset + 4 + zerosLen * 32;
    r := Ok((rootHistoryIndex, rootHistorySize, offset));
  }

  /** The relayer's parser. It returns exactly on buffers that hold a whole account, and every
      read it makes is inside the buffer. */
  method ParseMerkleTreeAccount(data: seq<Byte>) returns (r: Result<ParsedTree>)
    ensures r.Ok? <==> TreeFits(data, 17)
    ensures r.Ok? ==>
      var a := TreeOf(data);
      r.value == ParsedTree(a.pool, a.depth, a.nextLeafIndex, NatOf(a.currentRoot), a.currentRoot,
                            a.rootHistoryIndex, a.rootHistorySize, a.totalLeaves, Signed64(a.lastInsertionAt),
                            a.version.value)
  {
    if |data| < 77 { return Err; }
    var offset := 8;
    var pool := data[offset..offset + 32];
    offset := offset + 32;
    var depth := data[offset];
    offset := offset + 1;
    var nextLeafIndex := ReadLe(data, offset, 4);
    offset := offset + 4;
    var currentRootBytes := data[offset..offset + 32];
    var currentRoot := BytesToBigIntBE(currentRootBytes);
    offset := offset + 32;

    var vectors := SkipVectors(data, offset);
    if vectors.Err? { return Err; }
    var (rootHistoryIndex, rootHistorySize, t) := vectors.value;
    offset := t;

    if |data| < offset + 17 { return Err; }
    var totalLeaves := ReadLe(data, offset, 8);
    offset := offset + 8;
    var lastInsertionAt := Signed64(ReadLe(data, offset, 8));
    offset := offset + 8;
    var version := data[offset];
    r := Ok(ParsedTree(pool, depth, nextLeafIndex, currentRoot, currentRootBytes, rootHistoryIndex, rootHistorySize,
                       totalLeaves, lastInsertionAt, version));
  }

  // ----- the app's parser -----

  /** Buffer.slice: bounds past the end are cut back. */
  function Slice(data: seq<Byte>, a: nat, b: nat): seq<Byte>
    requires a <= b
  {
    if b <= |data| then data[a..b] else if a <= |data| then data[a..] else []
  }

  /** A length-prefixed vector of 32-byte entries; Err where the length lies outside the buffer. */
  method ReadBytes32Vec(data: seq<Byte>, start: nat) returns (r: Result<seq<seq<Byte>>>, offset: nat)
    ensures r.Ok? <==> start + 4 <= |data|
    ensures r.Ok? ==> offset == start + 4 + 32 * ReadLe(data, start, 4)
    ensures r.Ok? && offset <= |data| ==> r.value == Entries32(data, start + 4, ReadLe(data, start, 4))
  {
    offset := start;
    if |data| < offset + 4 { return Err, offset; }
    var len := ReadLe(data, offset, 4);
    offset := offset + 4;
    var arr := [];
    for i := 0 to len
      invariant offset == start + 4 + 32 * i
      invariant offset <= |data| ==> arr == Entries32(data, start + 4, i)
    {
      arr := arr + [Slice(data, offset, offset + 32)];
      offset := offset + 32;
    }
    r := Ok(arr);
  }

  /** The trailing fields, from t on. */
  method ReadTail(data: seq<Byte>, t: nat) returns (r: Result<(nat, nat, Option<Byte>)>)
    ensures r.Ok? <==> t + 16 <= |data|
    ensures r.Ok? ==>
      r.value == (ReadLe(data, t, 8), ReadLe(data, t + 8, 8), if t + 16 < |data| then Some(data[t + 16]) else None)
  {
    if |data| < t + 8 { return Err; }
    var totalLeaves := ReadLe(data, t, 8);
    if |data| < t + 16 { return Err; }
    var lastInsertionAt := ReadLe(data, t + 8, 8);
    var version := if t + 16 < |data| then Some(data[t + 16]) else None;
    r := Ok((totalLeaves, lastInsertionAt, version));
  }

  /** The root history with its two counters, from offset 77 on. */
  method ReadHistory(data: seq<Byte>) returns (r: Result<(seq<seq<Byte>>, nat, nat)>, offset: nat)
    ensures r.Ok? <==> |data| >= 81 && |data| >= FilledAt(data)
    ensures r.Ok? ==>
      && offset == FilledAt(data)
      && r.value == (Entries32(data, 81, ReadLe(data, 77, 4)), ReadLe(data, offset - 4, 2), ReadLe(data, offset - 2, 2))
  {
    var rootHistory;
    rootHistory, offset := ReadBytes32Vec(data, 77);
    if rootHistory.Err? { return Err, offset; }
    if |data| < offset + 2 { return Err, offset; }
    var rootHistoryIndex := ReadLe(data, offset, 2);
    offset := offset + 2;
    if |data| < offset + 2 { return Err, offset; }
    var rootHistorySize := ReadLe(data, offset, 2);
    offset := offset + 2;
    r := Ok((rootHistory.value, rootHistoryIndex, rootHistorySize));
  }

  /** Root history, filled subtrees and zeros. */
  method ReadVectors(data: seq<Byte>)
      returns (r: Result<((seq<seq<Byte>>, nat, nat), seq<seq<Byte>>, seq<seq<Byte>>)>, t: nat)
    ensures r.Ok? <==> |data| >= 81 && |data| >= FilledAt(data) + 4 && |data| >= ZerosAt(data) + 4
    ensures r.Ok? ==> t == TailAt(data)
    ensures r.Ok? && t <= |data| ==>
      var f, z := FilledAt(data), ZerosAt(data);
      r.value == (
        (Entries32(data, 81, ReadLe(data, 77, 4)), ReadLe(data, f - 4, 2), ReadLe(data, f - 2, 2)),
        Entries32(data, f + 4, ReadLe(data, f, 4)), Entries32(data, z + 4, ReadLe(data, z, 4)))
  {
    t := 0;
    var history, f := ReadHistory(data);
    if history.Err? { return Err, t; }
    var filledSubtrees, z := ReadBytes32Vec(data, f);
    if filledSubtrees.Err? { return Err, t; }
    var zeros;
    zeros, t := ReadBytes32Vec(data, z);
    if zeros.Err? { return Err, t; }
    r := Ok((history.value, filledSubtrees.value, zeros.value));
  }

  /** The app's parser. Integer reads past the end throw; slices are cut back and a missing last
      byte is undefined, so it also returns on a buffer that lacks just the version. */
  method ParseMerkleTreeAccountApp(data: seq<Byte>) returns (r: Result<TreeAccount>)
    ensures r.Ok? <==> TreeFits(data, 16)
    ensures r.Ok? ==> r.value == TreeOf(data)
  {
    var pool := Slice(data, 8, 40);
    if |data| < 45 { return Err; }
    var depth := data[40];
    var nextLeafIndex := ReadLe(data, 41, 4);
    var currentRoot := Slice(data, 45, 77);
    var vectors, t := ReadVectors(data);
    if vectors.Err? { return Err; }
    var tail := ReadTail(data, t);
    if tail.Err? { return Err; }
    var (history, filledSubtrees, zeros) := vectors.value;
    r := Ok(TreeAccount(pool, depth, nextLeafIndex, currentRoot, history.0, history.1, history.2,
                        filledSubtrees, zeros, tail.value.0, tail.value.1, tail.value.2));
  }

  /** Both parsers on one buffer. The relayer accepts exactly what the app accepts with a version,
      and then they agree on every field but one: the app reads the signed time of the last
      insertion as unsigned, which is the same number exactly below 2^63. */
  method ParsersAgree(data: seq<Byte>) returns (relayer: Result<ParsedTree>, app: Result<TreeAccount>)
    ensures relayer.Ok? <==> app.Ok? && app.value.version.Some?
    ensures relayer.Ok? ==>
      var r, a := relayer.value, app.value;
      && r.pool == a.pool && r.depth == a.depth && r.nextLeafIndex == a.nextLeafIndex
      && r.currentRootBytes == a.currentRoot && r.currentRoot == NatOf(a.currentRoot)
      && r.rootHistoryIndex == a.rootHistoryIndex && r.rootHistorySize == a.rootHistorySize
      && r.totalLeaves == a.totalLeaves && Some(r.version) == a.version
      && (r.lastInsertionAt == a.lastInsertionAt <==> a.lastInsertionAt < 0x8000000000000000)
      && (a.lastInsertionAt >= 0x8000000000000000 ==> r.lastInsertionAt == a.lastInsertionAt - 0x10000000000000000)
    ensures app.Ok? && relayer.Err? ==> TreeFits(data, 16) && |data| == TailAt(data) + 16
  {
    relayer := ParseMerkleTreeAccount(data);
    app := ParseMerkleTreeAccountApp(data);
  }

  // ----- the layout -----

  function Join(parts: seq<seq<Byte>>): seq<Byte> {
    if parts == [] then [] else Join(parts[..|parts| - 1]) + parts[|parts| - 1]
  }

  /** part lies in data from start on. */
  predicate SliceIs(data: seq<Byte>, start: nat, part: seq<Byte>) {
    start + |part| <= |data| && forall i :: 0 <= i < |part| ==> part[i] == data[start + i]
  }

  lemma SliceMeaning(data: seq<Byte>, start: nat, part: seq<Byte>)
    ensures SliceIs(data, start, part) <==> start + |part| <= |data| && data[start..start + |part|] == part
  {
    if start + |part| <= |data| {
      var s := data[start..start + |part|];
      assert forall i :: 0 <= i < |part| ==> s[i] == data[start + i];
    }
  }

  lemma SliceAppend(data: seq<Byte>, start: nat, x: seq<Byte>, y: seq<Byte>)
    ensures SliceIs(data, start, x + y) <==> SliceIs(data, start, x) && SliceIs(data, start + |x|, y)
  {
    if SliceIs(data, start, x) && SliceIs(data, start + |x|, y) {
      SlicesJoin(data, start, x, y);
    }
    if SliceIs(data, start, x + y) {
      SlicesSplit(data, start, x, y);
    }
  }

  lemma SlicesJoin(data: seq<Byte>, start: nat, x: seq<Byte>, y: seq<Byte>)
    requires SliceIs(data, start, x) && SliceIs(data, start + |x|, y)
    ensures SliceIs(data, start, x + y)
  {
    forall i | 0 <= i < |x + y| ensures (x + y)[i] == data[start + i] {
      if i >= |x| { assert y[i - |x|] == data[start + |x| + (i - |x|)]; }
    }
  }

  lemma SlicesSplit(data: seq<Byte>, start: nat, x: seq<Byte>, y: seq<Byte>)
    requires SliceIs(data, start, x + y)
    ensures SliceIs(data, start, x) && SliceIs(data, start + |x|, y)
  {
    forall i | 0 <= i < |x| ensures x[i] == data[start + i] {
      assert (x + y)[i] == x[i];
    }
    forall i | 0 <= i < |y| ensures y[i] == data[start + |x| + i] {
      assert (x + y)[|x| + i] == y[i];
    }
  }

  lemma SliceAppend3(data: seq<Byte>, start: nat, x: seq<Byte>, y: seq<Byte>, z: seq<Byte>)
    ensures SliceIs(data, start, x + y + z) <==>
      SliceIs(data, start, x) && SliceIs(data, start + |x|, y) && SliceIs(data, start + |x| + |y|, z)
  {
    SliceAppend(data, start, x, y);
    SliceAppend(data, start, x + y, z);
  }

  lemma SliceAppend5(data: seq<Byte>, a: seq<Byte>, b: seq<Byte>, c: seq<Byte>, d: seq<Byte>, e: seq<Byte>,
                     ia: nat, ib: nat, ic: nat, id: nat, ie: nat)
    requires ib == ia + |a| && ic == ib + |b| && id == ic + |c| && ie == id + |d|
    ensures SliceIs(data, ia, a + b + c + d + e) <==>
      && SliceIs(data, ia, a) && SliceIs(data, ib, b) && SliceIs(data, ic, c)
      && SliceIs(data, id, d) && SliceIs(data, ie, e)
  {
    var abc := a + b + c;
    SliceAppend3(data, ia, a, b, c);
    SliceAppend3(data, ia, abc, d, e);
  }

  lemma LeSlice(data: seq<Byte>, start: nat, n: nat, v: nat)
    requires v < Pow(256, n)
    ensures SliceIs(data, start, LeBytes(v, n)) <==> start + n <= |data| && ReadLe(data, start, n) == v
  {
    LeBytesNat(v, n);
    SliceMeaning(data, start, LeBytes(v, n));
    if start + n <= |data| { LeNatBytes(data[start..start + n]); }
  }

  lemma ByteSlice(data: seq<Byte>, start: nat, b: Byte)
    ensures SliceIs(data, start, [b]) <==> start < |data| && data[start] == b
  {
    SliceMeaning(data, start, [b]);
  }

  predicate All32(v: seq<seq<Byte>>) {
    forall e <- v :: |e| == 32
  }

  lemma SnocEqual<T>(x: seq<T>, e: T, v: seq<T>)
    requires |v| == |x| + 1
    ensures x + [e] == v <==> x == v[..|x|] && e == v[|x|]
  {
    assert v == v[..|x|] + [v[|x|]];
    assert (x + [e])[..|x|] == x;
  }

  lemma {:induction false} JoinLength(v: seq<seq<Byte>>)
    requires All32(v)
    ensures |Join(v)| == 32 * |v|
    decreases |v|
  {
    if v != [] {
      assert v[|v| - 1] in v;
      JoinLength(v[..|v| - 1]);
    }
  }

  lemma SplitLastEntry(data: seq<Byte>, start: nat, v: seq<seq<Byte>>, at: nat)
    requires v != [] && All32(v) && at == start + 32 * (|v| - 1)
    ensures
      var front, last := v[..|v| - 1], v[|v| - 1];
      SliceIs(data, start, Join(v)) <==> SliceIs(data, start, Join(front)) && SliceIs(data, at, last)
  {
    var front, last := v[..|v| - 1], v[|v| - 1];
    JoinLength(front);
    assert Join(v) == Join(front) + last;
    SliceAppend(data, start, Join(front), last);
  }

  lemma EntriesSnoc(data: seq<Byte>, start: nat, v: seq<seq<Byte>>, at: nat)
    requires v != [] && at == start + 32 * (|v| - 1) && at + 32 <= |data|
    ensures Entries32(data, start, |v|) == v <==>
      Entries32(data, start, |v| - 1) == v[..|v| - 1] && data[at..at + 32] == v[|v| - 1]
  {
    assert Entries32(data, start, |v|) == Entries32(data, start, |v| - 1) + [data[at..at + 32]];
    SnocEqual(Entries32(data, start, |v| - 1), data[at..at + 32], v);
  }

  lemma {:induction false} EntriesSlice(data: seq<Byte>, start: nat, v: seq<seq<Byte>>)
    requires All32(v) && start + 32 * |v| <= |data|
    ensures SliceIs(data, start, Join(v)) <==> Entries32(data, start, |v|) == v
    decreases |v|
  {
    if v != [] {
      var n := |v| - 1;
      var front, last := v[..n], v[n];
      assert last in v;
      var at := start + 32 * n;
      calc <==> {
        SliceIs(data, start, Join(v));
        { SplitLastEntry(data, start, v, at); }
        SliceIs(data, start, Join(front)) && SliceIs(data, at, last);
        { EntriesSlice(data, start, front); SliceMeaning(data, at, last); }
        Entries32(data, start, n) == front && data[at..at + 32] == last;
        { EntriesSnoc(data, start, v, at); }
        Entries32(data, start, |v|) == v;
      }
    }
  }

  /** A vector with its length prefix. */
  function Vec(v: seq<seq<Byte>>): seq<Byte> {
    LeBytes(|v|, 4) + Join(v)
  }

  lemma VecLength(v: seq<seq<Byte>>)
    requires All32(v)
    ensures |Vec(v)| == 4 + 32 * |v|
  {
    JoinLength(v);
  }

  /** What it means for a vector to lie at start. */
  predicate VecAt(data: seq<Byte>, start: nat, v: seq<seq<Byte>>) {
    start + 4 + 32 * |v| <= |data| && ReadLe(data, start, 4) == |v| && Entries32(data, start + 4, |v|) == v
  }

  lemma VecSlice(data: seq<Byte>, start: nat, v: seq<seq<Byte>>)
    requires All32(v) && |v| < Pow(256, 4)
    ensures SliceIs(data, start, Vec(v)) <==> VecAt(data, start, v)
  {
    LeSlice(data, start, 4, |v|);
    JoinLength(v);
    SliceAppend(data, start, LeBytes(|v|, 4), Join(v));
    if start + 4 + 32 * |v| <= |data| {
      EntriesSlice(data, start + 4, v);
    } else {
      SliceMeaning(data, start + 4, Join(v));
    }
  }

  /** A tree account that the layout can hold. */
  predicate WellFormed(a: TreeAccount) {
    && |a.pool| == 32 && |a.currentRoot| == 32 && a.version.Some?
    && All32(a.rootHistory) && All32(a.filledSubtrees) && All32(a.zeros)
    && a.nextLeafIndex < Pow(256, 4) && a.rootHistoryIndex < Pow(256, 2) && a.rootHistorySize < Pow(256, 2)
    && |a.rootHistory| < Pow(256, 4) && |a.filledSubtrees| < Pow(256, 4) && |a.zeros| < Pow(256, 4)
    && a.totalLeaves < Pow(256, 8) && a.lastInsertionAt < Pow(256, 8)
  }

  /** Pool, depth, next index, root; the root history with its counters; the trailing fields. */
  function Head(a: TreeAccount): seq<Byte> {
    a.pool + [a.depth] + LeBytes(a.nextLeafIndex, 4) + a.currentRoot
  }

  function History(a: TreeAccount): seq<Byte> {
    Vec(a.rootHistory) + LeBytes(a.rootHistoryIndex, 2) + LeBytes(a.rootHistorySize, 2)
  }

  function Trailer(a: TreeAccount): seq<Byte>
    requires a.version.Some?
  {
    LeBytes(a.totalLeaves, 8) + LeBytes(a.lastInsertionAt, 8) + [a.version.value]
  }

  /** The bytes of a tree account after its discriminator. */
  function EncodeTree(a: TreeAccount): seq<Byte>
    requires a.version.Some?
  {
    Head(a) + History(a) + Vec(a.filledSubtrees) + Vec(a.zeros) + Trailer(a)
  }

  lemma SectionLengths(a: TreeAccount)
    requires WellFormed(a)
    ensures |Head(a)| == 69 && |History(a)| == 8 + 32 * |a.rootHistory| && |Trailer(a)| == 17
    ensures |Vec(a.filledSubtrees)| == 4 + 32 * |a.filledSubtrees| && |Vec(a.zeros)| == 4 + 32 * |a.zeros|
  {
    VecLength(a.rootHistory);
    VecLength(a.filledSubtrees);
    VecLength(a.zeros);
  }

  predicate HeadAt(data: seq<Byte>, a: TreeAccount) {
    && 77 <= |data| && data[8..40] == a.pool && data[40] == a.depth
    && ReadLe(data, 41, 4) == a.nextLeafIndex && data[45..77] == a.currentRoot
  }

  lemma HeadSlice(data: seq<Byte>, a: TreeAccount)
    requires WellFormed(a)
    ensures SliceIs(data, 8, Head(a)) <==> HeadAt(data, a)
  {
    var next := LeBytes(a.nextLeafIndex, 4);
    SliceAppend3(data, 8, a.pool, [a.depth], next);
    SliceAppend(data, 8, a.pool + [a.depth] + next, a.currentRoot);
    SliceMeaning(data, 8, a.pool);
    ByteSlice(data, 40, a.depth);
    LeSlice(data, 41, 4, a.nextLeafIndex);
    SliceMeaning(data, 45, a.currentRoot);
  }

  predicate HistoryAt(data: seq<Byte>, a: TreeAccount, f: nat) {
    && VecAt(data, 77, a.rootHistory) && f == 85 + 32 * |a.rootHistory| <= |data|
    && ReadLe(data, f - 4, 2) == a.rootHistoryIndex && ReadLe(data, f - 2, 2) == a.rootHistorySize
  }

  lemma HistoryParts(data: seq<Byte>, v: seq<Byte>, i: seq<Byte>, s: seq<Byte>, f: nat)
    requires f == 81 + |v| && |i| == 2
    ensures SliceIs(data, 77, v + i + s) <==>
      SliceIs(data, 77, v) && SliceIs(data, f - 4, i) && SliceIs(data, f - 2, s)
  {
    SliceAppend3(data, 77, v, i, s);
  }

  lemma CountersSlice(data: seq<Byte>, f: nat, index: nat, size: nat)
    requires f >= 4 && index < Pow(256, 2) && size < Pow(256, 2)
    ensures SliceIs(data, f - 4, LeBytes(index, 2)) && SliceIs(data, f - 2, LeBytes(size, 2)) <==>
      f <= |data| && ReadLe(data, f - 4, 2) == index && ReadLe(data, f - 2, 2) == size
  {
    LeSlice(data, f - 4, 2, index);
    LeSlice(data, f - 2, 2, size);
  }

  lemma HistorySlice(data: seq<Byte>, a: TreeAccount, f: nat)
    requires WellFormed(a) && f == 85 + 32 * |a.rootHistory|
    ensures SliceIs(data, 77, History(a)) <==> HistoryAt(data, a, f)
  {
    VecLength(a.rootHistory);
    VecSlice(data, 77, a.rootHistory);
    HistoryParts(data, Vec(a.rootHistory), LeBytes(a.rootHistoryIndex, 2), LeBytes(a.rootHistorySize, 2), f);
    CountersSlice(data, f, a.rootHistoryIndex, a.rootHistorySize);
  }

  predicate TrailerAt(data: seq<Byte>, t: nat, a: TreeAccount)
    requires a.version.Some?
  {
    && t + 17 <= |data| && ReadLe(data, t, 8) == a.totalLeaves && ReadLe(data, t + 8, 8) == a.lastInsertionAt
    && data[t + 16] == a.version.value
  }

  lemma TrailerSlice(data: seq<Byte>, t: nat, a: TreeAccount)
    requires WellFormed(a)
    ensures SliceIs(data, t, Trailer(a)) <==> TrailerAt(data, t, a)
  {
    SliceAppend3(data, t, LeBytes(a.totalLeaves, 8), LeBytes(a.lastInsertionAt, 8), [a.version.value]);
    ByteSlice(data, t + 16, a.version.value);
    LeSlice(data, t, 8, a.totalLeaves);
    LeSlice(data, t + 8, 8, a.lastInsertionAt);
  }

  /** All sections at their offsets. */
  predicate SectionsAt(data: seq<Byte>, a: TreeAccount, f: nat, z: nat, t: nat)
    requires a.version.Some?
  {
    && HeadAt(data, a) && HistoryAt(data, a, f) && VecAt(data, f, a.filledSubtrees) && VecAt(data, z, a.zeros)
    && TrailerAt(data, t, a)
  }

  lemma EncodingSections(data: seq<Byte>, a: TreeAccount, f: nat, z: nat, t: nat)
    requires WellFormed(a)
    requires f == 85 + 32 * |a.rootHistory| && z == f + 4 + 32 * |a.filledSubtrees| && t == z + 4 + 32 * |a.zeros|
    ensures SliceIs(data, 8, EncodeTree(a)) <==>
      && SliceIs(data, 8, Head(a)) && SliceIs(data, 77, History(a)) && SliceIs(data, f, Vec(a.filledSubtrees))
      && SliceIs(data, z, Vec(a.zeros)) && SliceIs(data, t, Trailer(a))
  {
    SectionLengths(a);
    SliceAppend5(data, Head(a), History(a), Vec(a.filledSubtrees), Vec(a.zeros), Trailer(a), 8, 77, f, z, t);
  }

  lemma EncodingSlices(data: seq<Byte>, a: TreeAccount, f: nat, z: nat, t: nat)
    requires WellFormed(a)
    requires f == 85 + 32 * |a.rootHistory| && z == f + 4 + 32 * |a.filledSubtrees| && t == z + 4 + 32 * |a.zeros|
    ensures SliceIs(data, 8, EncodeTree(a)) <==> SectionsAt(data, a, f, z, t)
  {
    calc <==> {
      SliceIs(data, 8, EncodeTree(a));
      { EncodingSections(data, a, f, z, t); }
      && SliceIs(data, 8, Head(a)) && SliceIs(data, 77, History(a)) && SliceIs(data, f, Vec(a.filledSubtrees))
      && SliceIs(data, z, Vec(a.zeros)) && SliceIs(data, t, Trailer(a));
      { HeadSlice(data, a); HistorySlice(data, a, f); TrailerSlice(data, t, a); }
      && HeadAt(data, a) && HistoryAt(data, a, f) && SliceIs(data, f, Vec(a.filledSubtrees))
      && SliceIs(data, z, Vec(a.zeros)) && TrailerAt(data, t, a);
      { VecSlice(data, f, a.filledSubtrees); VecSlice(data, z, a.zeros); }
      SectionsAt(data, a, f, z, t);
    }
  }

  lemma SectionOffsets(data: seq<Byte>, a: TreeAccount, f: nat, z: nat, t: nat)
    requires a.version.Some? && SectionsAt(data, a, f, z, t)
    requires z == f + 4 + 32 * |a.filledSubtrees| && t == z + 4 + 32 * |a.zeros|
    ensures TreeFits(data, 17) && FilledAt(data) == f && ZerosAt(data) == z && TailAt(data) == t
  {
    assert |data| >= 81 && FilledAt(data) == f;
    assert |data| >= f + 4 && ZerosAt(data) == z;
    assert |data| >= z + 4 && TailAt(data) == t;
  }

  lemma HeadToAccount(data: seq<Byte>, a: TreeAccount)
    requires TreeFits(data, 17) && HeadAt(data, a)
    ensures var b := TreeOf(data);
      b.pool == a.pool && b.depth == a.depth && b.nextLeafIndex == a.nextLeafIndex && b.currentRoot == a.currentRoot
  {}

  lemma VectorsToAccount(data: seq<Byte>, a: TreeAccount, f: nat, z: nat)
    requires TreeFits(data, 17) && FilledAt(data) == f && ZerosAt(data) == z
    requires HistoryAt(data, a, f) && VecAt(data, f, a.filledSubtrees) && VecAt(data, z, a.zeros)
    ensures var b := TreeOf(data);
      && b.rootHistory == a.rootHistory && b.rootHistoryIndex == a.rootHistoryIndex
      && b.rootHistorySize == a.rootHistorySize && b.filledSubtrees == a.filledSubtrees && b.zeros == a.zeros
  {}

  lemma TrailerToAccount(data: seq<Byte>, a: TreeAccount, t: nat)
    requires a.version.Some? && TreeFits(data, 17) && TailAt(data) == t && TrailerAt(data, t, a)
    ensures var b := TreeOf(data);
      b.totalLeaves == a.totalLeaves && b.lastInsertionAt == a.lastInsertionAt && b.version == a.version
  {}

  lemma SectionsToAccount(data: seq<Byte>, a: TreeAccount, f: nat, z: nat, t: nat)
    requires a.version.Some? && SectionsAt(data, a, f, z, t)
    requires TreeFits(data, 17) && FilledAt(data) == f && ZerosAt(data) == z && TailAt(data) == t
    ensures TreeOf(data) == a
  {
    HeadToAccount(data, a);
    VectorsToAccount(data, a, f, z);
    TrailerToAccount(data, a, t);
  }

  lemma HeadFromAccount(data: seq<Byte>, a: TreeAccount)
    requires TreeFits(data, 17) && TreeOf(data) == a
    ensures HeadAt(data, a)
  {}

  lemma VectorsFromAccount(data: seq<Byte>, a: TreeAccount, f: nat, z: nat)
    requires TreeFits(data, 17) && TreeOf(data) == a && FilledAt(data) == f && ZerosAt(data) == z
    ensures HistoryAt(data, a, f) && VecAt(data, f, a.filledSubtrees) && VecAt(data, z, a.zeros)
  {}

  lemma AccountToSections(data: seq<Byte>, a: TreeAccount, f: nat, z: nat, t: nat)
    requires a.version.Some? && TreeFits(data, 17) && TreeOf(data) == a
    requires f == 85 + 32 * |a.rootHistory| && z == f + 4 + 32 * |a.filledSubtrees| && t == z + 4 + 32 * |a.zeros|
    ensures SectionsAt(data, a, f, z, t)
  {
    assert FilledAt(data) == f && ZerosAt(data) == z && TailAt(data) == t;
    HeadFromAccount(data, a);
    VectorsFromAccount(data, a, f, z);
  }

  lemma SectionsExact(data: seq<Byte>, a: TreeAccount, f: nat, z: nat, t: nat)
    requires a.version.Some?
    requires f == 85 + 32 * |a.rootHistory| && z == f + 4 + 32 * |a.filledSubtrees| && t == z + 4 + 32 * |a.zeros|
    ensures SectionsAt(data, a, f, z, t) <==> TreeFits(data, 17) && TreeOf(data) == a
  {
    if TreeFits(data, 17) && TreeOf(data) == a {
      AccountToSections(data, a, f, z, t);
    }
    if SectionsAt(data, a, f, z, t) {
      SectionOffsets(data, a, f, z, t);
      SectionsToAccount(data, a, f, z, t);
    }
  }

  /** The layout and the parsers are inverse: a buffer holds the encoding of an account after the
      discriminator exactly when the relayer accepts it and finds that account, for any vector
      lengths and whatever follows. */
  lemma LayoutExact(data: seq<Byte>, a: TreeAccount)
    requires WellFormed(a)
    ensures SliceIs(data, 8, EncodeTree(a)) <==> TreeFits(data, 17) && TreeOf(data) == a
  {
    var f := 85 + 32 * |a.rootHistory|;
    var z := f + 4 + 32 * |a.filledSubtrees|;
    var t := z + 4 + 32 * |a.zeros|;
    EncodingSlices(data, a, f, z, t);
    SectionsExact(data, a, f, z, t);
  }
}
