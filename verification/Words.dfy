/** Byte strings made of 32-byte big-endian words. */
module Words {
  import opened BigEndian

  predicate AllFit(ws: seq<nat>) {
    forall w <- ws :: w < TWO_256
  }

  /** The words one after the other. */
  function Concat(ws: seq<nat>): (s: seq<Byte>)
    ensures |s| == WORD * |ws|
    decreases |ws|
  {
    if ws == [] then [] else Concat(ws[..|ws| - 1]) + ToBytes(ws[|ws| - 1], WORD)
  }

  /** The i-th word of a byte string. */
  function WordAt(s: seq<Byte>, i: nat): nat
    requires WORD * i + WORD <= |s|
  {
    NatOf(s[WORD * i..WORD * i + WORD])
  }

  lemma SliceOfAppend(x: seq<Byte>, y: seq<Byte>, a: nat, b: nat)
    requires a <= b <= |x + y|
    ensures b <= |x| ==> (x + y)[a..b] == x[a..b]
    ensures a == |x| && b == |x + y| ==> (x + y)[a..b] == y
  {}

  lemma {:induction false} ConcatAt(ws: seq<nat>, i: nat)
    requires i < |ws|
    ensures Concat(ws)[WORD * i..WORD * i + WORD] == ToBytes(ws[i], WORD)
    decreases |ws|
  {
    var n := |ws| - 1;
    SliceOfAppend(Concat(ws[..n]), ToBytes(ws[n], WORD), WORD * i, WORD * i + WORD);
    if i < n { ConcatAt(ws[..n], i); }
  }

  /** Words that fit are read back. */
  lemma WordRoundTrip(ws: seq<nat>, i: nat)
    requires i < |ws| && ws[i] < TWO_256
    ensures WordAt(Concat(ws), i) == ws[i]
  {
    ConcatAt(ws, i);
    Pow32();
    ToBytesNat(ws[i], WORD);
  }

  lemma WordOfFront(s: seq<Byte>, n: nat, i: nat)
    requires i < n && WORD * n <= |s|
    ensures WordAt(s[..WORD * n], i) == WordAt(s, i)
  {
    assert s[..WORD * n][WORD * i..WORD * i + WORD] == s[WORD * i..WORD * i + WORD];
  }

  lemma LastWord(s: seq<Byte>, n: nat)
    requires |s| == WORD * n + WORD
    ensures s == s[..WORD * n] + ToBytes(WordAt(s, n), WORD)
  {
    var last := s[WORD * n..];
    assert last == s[WORD * n..WORD * n + WORD];
    NatToBytes(last);
  }

  lemma {:induction false} BytesRoundTrip(s: seq<Byte>, ws: seq<nat>)
    requires |s| == WORD * |ws|
    requires forall i :: 0 <= i < |ws| ==> ws[i] == WordAt(s, i)
    ensures Concat(ws) == s
    decreases |ws|
  {
    if ws != [] {
      var n := |ws| - 1;
      var front := s[..WORD * n];
      forall i | 0 <= i < n ensures ws[..n][i] == WordAt(front, i) {
        WordOfFront(s, n, i);
      }
      BytesRoundTrip(front, ws[..n]);
      LastWord(s, n);
    }
  }
}
