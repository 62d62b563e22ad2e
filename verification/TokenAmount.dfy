/** Decimal token amounts as the app shows and reads them. */
module TokenAmount {
  import opened Results
  import opened Arith
  import opened Numerals

  /** s without its trailing zeros. */
  function TrimZeros(s: string): string {
    if s != [] && s[|s| - 1] == '0' then TrimZeros(s[..|s| - 1]) else s
  }

  function PadEnd(s: string, n: nat): string {
    if |s| < n then s + Zeros(n - |s|) else s
  }

  /** An integer part and a fraction as a decimal string, without the fraction's trailing zeros. */
  function Show(intPart: nat, fracPart: nat, decimals: nat): string {
    var trimmed := TrimZeros(PadStart(Numeral(fracPart, 10), decimals));
    if trimmed != [] then Numeral(intPart, 10) + "." + trimmed else Numeral(intPart, 10)
  }

  function FormatTokenAmount(raw: nat, decimals: nat): string {
    var divisor := Pow(10, decimals);
    PowPositive(10, decimals);
    Show(raw / divisor, raw % divisor, decimals)
  }

  /** Err stands for the strings that BigInt rejects or reads as something else than digits. */
  function ReadParts(intStr: string, fracStr: string, decimals: nat): Result<nat> {
    var padded := PadEnd(fracStr, decimals)[..decimals];
    if AllDigits(intStr, 10) && AllDigits(padded, 10) then
      Ok(Value(intStr, 10) * Pow(10, decimals) + Value(padded, 10))
    else Err
  }

  function ParseTokenAmount(amount: string, decimals: nat): Result<nat> {
    ReadParts(Before(amount, '.'), Before(After(amount, '.'), '.'), decimals)
  }

  /** Splitting at the dot finds the parts that were joined with one, or the whole without one. */
  lemma PartsFound(intStr: string, fracStr: string, decimals: nat)
    requires AllDigits(intStr, 10) && AllDigits(fracStr, 10)
    ensures ParseTokenAmount(intStr + "." + fracStr, decimals) == ReadParts(intStr, fracStr, decimals)
    ensures ParseTokenAmount(intStr, decimals) == ReadParts(intStr, [], decimals)
  {
    SplitAtMark(intStr, '.', fracStr);
    SplitAtMark(fracStr, '.', []);
  }

  /** Trimming drops zeros only. */
  lemma {:induction false} TrimIsPad(s: string)
    ensures |TrimZeros(s)| <= |s| && PadEnd(TrimZeros(s), |s|) == s
    decreases |s|
  {
    if s != [] && s[|s| - 1] == '0' {
      var t := s[..|s| - 1];
      TrimIsPad(t);
      assert s == t + ['0'];
      assert Zeros(|s| - |TrimZeros(t)|) == Zeros(|t| - |TrimZeros(t)|) + ['0'];
    }
  }

  lemma ZerosAreDigits(n: nat)
    ensures AllDigits(Zeros(n), 10)
  {
    assert IsDigit('0', 10) by { assert DigitChar(0) == '0'; }
  }

  /** The fraction string of a value below the divisor has exactly `decimals` digits and that
      value. */
  lemma FractionString(v: nat, decimals: nat)
    requires decimals > 0 && v < Pow(10, decimals)
    ensures var f := PadStart(Numeral(v, 10), decimals);
      |f| == decimals && Value(f, 10) == v && AllDigits(f, 10)
  {
    NumeralLength(v, 10, decimals);
    PadStartValue(Numeral(v, 10), decimals, 10);
    NumeralRoundTrip(v, 10);
    NumeralDigits(v, 10);
    ZerosAreDigits(decimals - |Numeral(v, 10)|);
  }

  /** The fraction that parsing recovers from what formatting shows. */
  lemma FractionRoundTrip(v: nat, decimals: nat)
    requires v < Pow(10, decimals)
    ensures var trimmed := TrimZeros(PadStart(Numeral(v, 10), decimals));
      var padded := PadEnd(trimmed, decimals)[..decimals];
      Value(padded, 10) == v && AllDigits(padded, 10) && AllDigits(trimmed, 10)
  {
    if decimals == 0 {
      assert PadStart(Numeral(0, 10), 0) == "0";
      assert TrimZeros("0") == [] by { assert "0"[..0] == []; }
      assert Value([], 10) == 0;
    } else {
      var f := PadStart(Numeral(v, 10), decimals);
      FractionString(v, decimals);
      TrimIsPad(f);
      assert f[..decimals] == f;
      var trimmed := TrimZeros(f);
      assert trimmed == f[..|trimmed|];
    }
  }

  lemma ReadValues(intStr: string, fracStr: string, decimals: nat, padded: string, q: nat, r: nat, raw: nat)
    requires AllDigits(intStr, 10) && Value(intStr, 10) == q && raw == q * Pow(10, decimals) + r
    requires padded == PadEnd(fracStr, decimals)[..decimals] && AllDigits(padded, 10) && Value(padded, 10) == r
    ensures ReadParts(intStr, fracStr, decimals) == Ok(raw)
  {}

  lemma PartsThenParse(intStr: string, trimmed: string, decimals: nat, padded: string, q: nat, r: nat, raw: nat)
    requires AllDigits(intStr, 10) && AllDigits(trimmed, 10) && Value(intStr, 10) == q
    requires raw == q * Pow(10, decimals) + r
    requires padded == PadEnd(trimmed, decimals)[..decimals] && AllDigits(padded, 10) && Value(padded, 10) == r
    ensures ParseTokenAmount(if trimmed != [] then intStr + "." + trimmed else intStr, decimals) == Ok(raw)
  {
    PartsFound(intStr, trimmed, decimals);
    ReadValues(intStr, trimmed, decimals, padded, q, r, raw);
  }

  lemma ShowThenParse(q: nat, r: nat, decimals: nat, raw: nat)
    requires r < Pow(10, decimals) && raw == q * Pow(10, decimals) + r
    ensures ParseTokenAmount(Show(q, r, decimals), decimals) == Ok(raw)
  {
    FractionRoundTrip(r, decimals);
    NumeralRoundTrip(q, 10);
    NumeralDigits(q, 10);
    var trimmed := TrimZeros(PadStart(Numeral(r, 10), decimals));
    PartsThenParse(Numeral(q, 10), trimmed, decimals, PadEnd(trimmed, decimals)[..decimals], q, r, raw);
  }

  lemma ShownThenParsed(raw: nat, q: nat, r: nat, decimals: nat, text: string)
    requires r < Pow(10, decimals) && raw == q * Pow(10, decimals) + r && text == Show(q, r, decimals)
    ensures ParseTokenAmount(text, decimals) == Ok(raw)
  {
    ShowThenParse(q, r, decimals, raw);
  }

  /** Parsing what was formatted gives the raw amount back, for every number of decimals, zero
      included, and whatever zeros were trimmed. */
  lemma FormatThenParse(raw: nat, decimals: nat)
    ensures ParseTokenAmount(FormatTokenAmount(raw, decimals), decimals) == Ok(raw)
  {
    var p := Pow(10, decimals);
    PowPositive(10, decimals);
    DivMod(raw, p);
    ShownThenParsed(raw, raw / p, raw % p, decimals, FormatTokenAmount(raw, decimals));
  }

  /** An amount is accepted exactly if its whole part and the places that are kept are decimal digits;
      what follows a second dot does not matter. */
  lemma ParseAccepts(intStr: string, fracStr: string, rest: string, decimals: nat)
    requires '.' !in intStr && '.' !in fracStr
    ensures
      var padded := PadEnd(fracStr, decimals)[..decimals];
      ParseTokenAmount(intStr + "." + fracStr, decimals).Ok? <==>
        (forall c <- intStr :: '0' <= c <= '9') && (forall c <- padded :: '0' <= c <= '9')
    ensures ParseTokenAmount(intStr + "." + fracStr + "." + rest, decimals) == ParseTokenAmount(intStr + "." + fracStr, decimals)
    ensures ParseTokenAmount(intStr, decimals) == ParseTokenAmount(intStr + ".", decimals)
  {
    var dot: string := ".";
    SplitAtDot(intStr, fracStr);
    SplitAtDot(intStr, fracStr + dot + rest);
    SplitAtDot(intStr, []);
    SplitAtDot(fracStr, rest);
    SplitAtDot(fracStr, []);
    SplitAtDot([], []);
    assert intStr + dot + fracStr + dot + rest == intStr + dot + (fracStr + dot + rest);
    assert intStr + dot == intStr + dot + [];
    DecimalDigits(intStr);
    DecimalDigits(PadEnd(fracStr, decimals)[..decimals]);
  }

  lemma DecimalDigits(s: string)
    ensures AllDigits(s, 10) <==> forall c <- s :: '0' <= c <= '9'
  {
    forall c | c in s ensures IsDigit(c, 10) <==> '0' <= c <= '9' {
      if '0' <= c <= '9' { assert c == DigitChar((c - '0') as nat); }
    }
  }

  lemma {:induction false} SplitAtDot(s: string, t: string)
    requires '.' !in s
    ensures Before(s, '.') == s && After(s, '.') == []
    ensures Before(s + "." + t, '.') == s && After(s + "." + t, '.') == t
    decreases |s|
  {
    var whole := s + "." + t;
    if s == [] {
      assert whole[0] == '.' && whole[1..] == t;
    } else {
      assert whole[0] == s[0] && whole[1..] == s[1..] + "." + t;
      SplitAtDot(s[1..], t);
    }
  }

  lemma {:induction false} TrimmedEnd(s: string)
    ensures TrimZeros(s) == [] || TrimZeros(s)[|TrimZeros(s)| - 1] != '0'
    decreases |s|
  {
    if s != [] && s[|s| - 1] == '0' { TrimmedEnd(s[..|s| - 1]); }
  }

  lemma {:induction false} TrimmedNone(s: string)
    requires AllDigits(s, 10)
    ensures TrimZeros(s) == [] <==> Value(s, 10) == 0
    decreases |s|
  {
    if s != [] {
      var front, c := s[..|s| - 1], s[|s| - 1];
      assert c in s && (forall d <- front :: d in s);
      assert IsDigit(c, 10) && (DigitVal(c) == 0 <==> c == '0');
      if c == '0' { TrimmedNone(front); }
    }
  }

  /** A shown amount has a dot exactly when there is a fraction to show, and then it does not end in
      a zero; what stands before the dot is the whole part, without leading zeros. */
  lemma ShownForm(raw: nat, decimals: nat) returns (q: nat, r: nat)
    ensures q * Pow(10, decimals) + r == raw && r < Pow(10, decimals)
    ensures ProperForm(FormatTokenAmount(raw, decimals), q, r)
  {
    PowPositive(10, decimals);
    DivMod(raw, Pow(10, decimals));
    q, r := raw / Pow(10, decimals), raw % Pow(10, decimals);
    ShowForm(q, r, decimals);
  }

  predicate ProperForm(text: string, q: nat, r: nat) {
    && ('.' in text <==> r != 0)
    && ('.' in text ==> text[|text| - 1] != '0' && text[|text| - 1] != '.')
    && Before(text, '.') == Numeral(q, 10)
  }

  lemma ShowForm(q: nat, r: nat, decimals: nat)
    requires r < Pow(10, decimals)
    ensures ProperForm(Show(q, r, decimals), q, r)
  {
    var f := PadStart(Numeral(r, 10), decimals);
    var trimmed := TrimZeros(f);
    TrimmedEnd(f);
    NumeralDigits(q, 10);
    FractionRoundTrip(r, decimals);
    FractionShown(r, decimals);
    PartsSplit(Numeral(q, 10), trimmed);
  }

  /** A fraction is shown exactly if it is not zero. */
  lemma FractionShown(r: nat, decimals: nat)
    requires r < Pow(10, decimals)
    ensures TrimZeros(PadStart(Numeral(r, 10), decimals)) == [] <==> r == 0
  {
    if decimals == 0 {
      assert PadStart(Numeral(0, 10), 0) == "0";
      assert "0"[..0] == [];
      assert TrimZeros("0") == TrimZeros([]);
    } else {
      FractionString(r, decimals);
      TrimmedNone(PadStart(Numeral(r, 10), decimals));
    }
  }

  lemma PartsSplit(intStr: string, trimmed: string)
    requires AllDigits(intStr, 10) && AllDigits(trimmed, 10)
    ensures '.' !in intStr && '.' !in trimmed
    ensures Before(intStr + "." + trimmed, '.') == intStr && Before(intStr, '.') == intStr
  {
    assert !IsDigit('.', 10);
    SplitAtMark(intStr, '.', trimmed);
  }

  lemma PaddedDigits(fracStr: string, decimals: nat)
    requires AllDigits(fracStr, 10)
    ensures |PadEnd(fracStr, decimals)| >= decimals && AllDigits(PadEnd(fracStr, decimals)[..decimals], 10)
  {
    if |fracStr| < decimals { ZerosAreDigits(decimals - |fracStr|); }
  }

  lemma ReadWhole(intStr: string, fracStr: string, decimals: nat, padded: string)
    requires AllDigits(intStr, 10) && AllDigits(padded, 10)
    requires |padded| == decimals && padded == PadEnd(fracStr, decimals)[..decimals]
    ensures ReadParts(intStr, fracStr, decimals) == Ok(Value(intStr + padded, 10))
  {
    ValueAppend(intStr, padded, 10);
  }

  lemma ParseDotted(intStr: string, fracStr: string, decimals: nat)
    requires AllDigits(intStr, 10) && AllDigits(fracStr, 10)
    ensures ParseTokenAmount(intStr + "." + fracStr, decimals)
         == Ok(Value(intStr + PadEnd(fracStr, decimals)[..decimals], 10))
  {
    PartsFound(intStr, fracStr, decimals);
    PaddedDigits(fracStr, decimals);
    ReadWhole(intStr, fracStr, decimals, PadEnd(fracStr, decimals)[..decimals]);
  }

  /** A fraction of no more than `decimals` places is read exactly. */
  lemma ParseShortFraction(intStr: string, fracStr: string, decimals: nat)
    requires AllDigits(intStr, 10) && AllDigits(fracStr, 10) && |fracStr| <= decimals
    ensures ParseTokenAmount(intStr + "." + fracStr, decimals)
         == Ok(Value(intStr + fracStr, 10) * Pow(10, decimals - |fracStr|))
  {
    var z := Zeros(decimals - |fracStr|);
    ParseDotted(intStr, fracStr, decimals);
    assert PadEnd(fracStr, decimals)[..decimals] == fracStr + z;
    assert intStr + (fracStr + z) == intStr + fracStr + z;
    ValueAppend(intStr + fracStr, z, 10);
    ZerosValue(decimals - |fracStr|, 10);
  }

  /** Further places are cut off, never rounded up. */
  lemma ParseLongFraction(intStr: string, fracStr: string, decimals: nat)
    requires AllDigits(intStr, 10) && AllDigits(fracStr, 10) && |fracStr| > decimals
    ensures ParseTokenAmount(intStr + "." + fracStr, decimals).Ok?
    ensures
      var parsed := ParseTokenAmount(intStr + "." + fracStr, decimals).value;
      var p := Pow(10, |fracStr| - decimals);
      parsed * p <= Value(intStr + fracStr, 10) < parsed * p + p
  {
    var head, tail := fracStr[..decimals], fracStr[decimals..];
    ParseDotted(intStr, fracStr, decimals);
    assert PadEnd(fracStr, decimals)[..decimals] == head;
    assert intStr + fracStr == intStr + head + tail;
    ValueAppend(intStr + head, tail, 10);
    ValueBound(tail);
  }

  lemma {:induction false} ValueBound(s: string)
    requires AllDigits(s, 10)
    ensures Value(s, 10) < Pow(10, |s|)
    decreases |s|
  {
    if s != [] {
      assert s[|s| - 1] in s && IsDigit(s[|s| - 1], 10);
      ValueBound(s[..|s| - 1]);
    }
  }
}
