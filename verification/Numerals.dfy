/** Numbers written in a base between 2 and 16, as toString writes them and BigInt and parseInt
    read them. */
module Numerals {
  import opened Arith

  const DIGITS := "0123456789abcdef"

  function DigitChar(d: nat): char
    requires d < 16
  {
    DIGITS[d]
  }

  function DigitVal(c: char): nat {
    if '0' <= c <= '9' then (c - '0') as nat
    else if 'a' <= c <= 'f' then 10 + (c - 'a') as nat
    else 0
  }

  predicate IsDigit(c: char, base: nat) {
    exists d :: 0 <= d < base && d < 16 && c == DigitChar(d)
  }

  lemma DigitTable(d: nat)
    requires d < 16
    ensures DigitChar(d) == "0123456789abcdef"[d] && DigitVal("0123456789abcdef"[d]) == d
  {}

  /** v in base b without leading zeros; zero is a single digit. */
  function Numeral(v: nat, b: nat): (s: string)
    requires 2 <= b <= 16
    ensures |s| > 0
    decreases v
  {
    if v < b then [DigitChar(v)] else Numeral(v / b, b) + [DigitChar(v % b)]
  }

  /** The value of a digit string; the empty string is zero. */
  function Value(s: string, b: nat): nat {
    if s == [] then 0 else Value(s[..|s| - 1], b) * b + DigitVal(s[|s| - 1])
  }

  predicate AllDigits(s: string, b: nat) {
    forall c <- s :: IsDigit(c, b)
  }

  lemma ValueSnoc(s: string, c: char, b: nat)
    ensures Value(s + [c], b) == Value(s, b) * b + DigitVal(c)
  {
    assert (s + [c])[..|s|] == s;
  }

  lemma AppendDigit(s: string, q: nat, r: nat, b: nat, v: nat)
    requires Value(s, b) == q && b * q + r == v && r < 16
    ensures Value(s + [DigitChar(r)], b) == v
  {
    ValueSnoc(s, DigitChar(r), b);
  }

  lemma {:induction false} NumeralRoundTrip(v: nat, b: nat)
    requires 2 <= b <= 16
    ensures Value(Numeral(v, b), b) == v
    decreases v
  {
    if v < b {
      AppendDigit([], 0, v, b, v);
      assert [] + [DigitChar(v)] == Numeral(v, b);
    } else {
      NumeralRoundTrip(v / b, b);
      DivMod(v, b);
      AppendDigit(Numeral(v / b, b), v / b, v % b, b, v);
    }
  }

  lemma {:induction false} NumeralDigits(v: nat, b: nat)
    requires 2 <= b <= 16
    ensures AllDigits(Numeral(v, b), b)
    decreases v
  {
    if v >= b { NumeralDigits(v / b, b); }
  }

  lemma OneMoreDigit(v: nat, b: nat)
    requires 2 <= b <= 16 && v >= b
    ensures |Numeral(v, b)| == |Numeral(v / b, b)| + 1
  {}

  /** A numeral of v fits n digits exactly when v is below the n-th power of the base. */
  lemma {:induction false} NumeralLength(v: nat, b: nat, n: nat)
    requires 2 <= b <= 16 && n > 0
    ensures |Numeral(v, b)| <= n <==> v < Pow(b, n)
    decreases n
  {
    var p := Pow(b, n - 1);
    PowPositive(b, n - 1);
    assert Pow(b, n) == b * p;
    if v < b {
      assert b * p >= b * 1;
      assert |Numeral(v, b)| == 1;
    } else {
      var q := v / b;
      DivLess(v, b, p);
      OneMoreDigit(v, b);
      if n == 1 {
        assert p == 1;
      } else {
        NumeralLength(q, b, n - 1);
      }
    }
  }

  function Zeros(n: nat): (z: string)
    ensures |z| == n && forall c <- z :: c == '0'
  {
    seq(n, _ => '0')
  }

  function PadStart(s: string, n: nat): string {
    if |s| < n then Zeros(n - |s|) + s else s
  }

  lemma {:induction false} ZerosValue(n: nat, b: nat)
    ensures Value(Zeros(n), b) == 0
    decreases n
  {
    if n > 0 {
      assert Zeros(n)[..n - 1] == Zeros(n - 1);
      ZerosValue(n - 1, b);
    }
  }

  lemma {:induction false} ValueAppend(s: string, t: string, b: nat)
    ensures Value(s + t, b) == Value(s, b) * Pow(b, |t|) + Value(t, b)
    decreases |t|
  {
    if t == [] {
      assert s + t == s;
    } else {
      var t0, d := t[..|t| - 1], DigitVal(t[|t| - 1]);
      assert (s + t)[..|s + t| - 1] == s + t0;
      ValueAppend(s, t0, b);
      Horner(Value(s, b), Pow(b, |t0|), Value(t0, b), b, d);
    }
  }

  /** Padding on the left keeps the value. */
  lemma PadStartValue(s: string, n: nat, b: nat)
    ensures Value(PadStart(s, n), b) == Value(s, b)
  {
    if |s| < n {
      ValueAppend(Zeros(n - |s|), s, b);
      ZerosValue(n - |s|, b);
    }
  }

  // ----- splitting at a mark -----

  /** The part of s before the first c, all of s if there is none, and the part behind it. */
  function Before(s: string, c: char): string {
    if s == [] || s[0] == c then [] else [s[0]] + Before(s[1..], c)
  }

  function After(s: string, c: char): string {
    if s == [] then [] else if s[0] == c then s[1..] else After(s[1..], c)
  }

  /** Digits never contain the mark, so they are split off whole. */
  lemma {:induction false} SplitAtMark(s: string, c: char, t: string)
    requires AllDigits(s, 10) && !IsDigit(c, 10)
    ensures Before(s, c) == s && After(s, c) == []
    ensures Before(s + [c] + t, c) == s && After(s + [c] + t, c) == t
    decreases |s|
  {
    var whole := s + [c] + t;
    if s == [] {
      assert whole[0] == c && whole[1..] == t;
    } else {
      assert s[0] in s && IsDigit(s[0], 10);
      assert whole[1..] == s[1..] + [c] + t;
      assert s == [s[0]] + s[1..];
      SplitAtMark(s[1..], c, t);
    }
  }
}
