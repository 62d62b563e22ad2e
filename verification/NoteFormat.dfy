/** The base64url text of notes: btoa and atob as in section 4 of RFC 4648, the alphabet swap of
    section 5, and the padding that the app strips and restores. */
module NoteFormat {
  import opened Results
  import opened Arith
  import opened BigEndian

  type Sextet = x: nat | x < 64

  function CharOf(x: Sextet): char {
    if x < 26 then 'A' + x as char
    else if x < 52 then 'a' + (x - 26) as char
    else if x < 62 then '0' + (x - 52) as char
    else if x == 62 then '+'
    else '/'
  }

  function SextetOf(c: char): Option<Sextet> {
    if 'A' <= c <= 'Z' then Some((c - 'A') as nat)
    else if 'a' <= c <= 'z' then Some((c - 'a') as nat + 26)
    else if '0' <= c <= '9' then Some((c - '0') as nat + 52)
    else if c == '+' then Some(62)
    else if c == '/' then Some(63)
    else None
  }

  predicate IsAlphabet(s: string) {
    forall i :: 0 <= i < |s| ==> SextetOf(s[i]).Some?
  }

  function Chars(x: seq<Sextet>): (s: string)
    ensures |s| == |x| && forall i :: 0 <= i < |x| ==> s[i] == CharOf(x[i])
  {
    seq(|x|, i requires 0 <= i < |x| => CharOf(x[i]))
  }

  function Sextets(s: string): (x: seq<Sextet>)
    requires IsAlphabet(s)
    ensures |x| == |s| && forall i :: 0 <= i < |s| ==> x[i] == SextetOf(s[i]).value
  {
    seq(|s|, i requires 0 <= i < |s| && SextetOf(s[i]).Some? => SextetOf(s[i]).value)
  }

  // ----- section 4 of RFC 4648 -----

  /** Groups of three bytes become four sextets; a last group of one or two bytes becomes two or
      three. */
  function ToSextets(b: seq<Byte>): seq<Sextet>
    decreases |b|
  {
    if |b| == 0 then []
    else if |b| == 1 then [b[0] / 4, b[0] % 4 * 16]
    else if |b| == 2 then [b[0] / 4, b[0] % 4 * 16 + b[1] / 16, b[1] % 16 * 4]
    else [b[0] / 4, b[0] % 4 * 16 + b[1] / 16, b[1] % 16 * 4 + b[2] / 64, b[2] % 64] + ToSextets(b[3..])
  }

  /** Groups of four sextets become three bytes; two or three left over become one or two bytes and
      a single one is dropped. */
  function FromSextets(x: seq<Sextet>): seq<Byte>
    decreases |x|
  {
    if |x| < 2 then []
    else
      var first: Byte := x[0] as nat * 4 + x[1] / 16;
      if |x| == 2 then [first]
      else
        var second: Byte := x[1] as nat % 16 * 16 + x[2] / 4;
        if |x| == 3 then [first, second]
        else
          var third: Byte := x[2] as nat % 4 * 64 + x[3];
          [first, second, third] + FromSextets(x[4..])
  }

  function Padding(n: nat): string {
    if n % 3 == 1 then "==" else if n % 3 == 2 then "=" else ""
  }

  function Btoa(b: seq<Byte>): string {
    Chars(ToSextets(b)) + Padding(|b|)
  }

  /** Alphabet characters, not one more than a multiple of four. */
  predicate IsBody(s: string) {
    IsAlphabet(s) && |s| % 4 != 1
  }

  function DecodeUnpadded(s: string): Option<seq<Byte>> {
    if IsBody(s) then Some(FromSextets(Sextets(s))) else None
  }

  /** Up to two padding characters are dropped from text whose length is a multiple of four. */
  function Unpadded(s: string): string {
    var n := |s|;
    if n % 4 == 0 && n > 0 && s[n - 1] == '=' then
      if s[n - 2] == '=' then s[..n - 2] else s[..n - 1]
    else s
  }

  function Atob(s: string): Option<seq<Byte>> {
    DecodeUnpadded(Unpadded(s))
  }

  // ----- section 5 of RFC 4648 -----

  function Swap(s: string, a: char, b: char): (r: string)
    ensures |r| == |s|
    ensures forall i :: 0 <= i < |s| ==> r[i] == if s[i] == a then b else s[i]
  {
    seq(|s|, i requires 0 <= i < |s| => if s[i] == a then b else s[i])
  }

  function StripEnd(s: string): string {
    if s != [] && s[|s| - 1] == '=' then StripEnd(s[..|s| - 1]) else s
  }

  /** encodeBase64Url, from the UTF-8 bytes on. */
  function EncodeBase64Url(bytes: seq<Byte>): string {
    StripEnd(Swap(Swap(Btoa(bytes), '+', '-'), '/', '_'))
  }

  /** Text with the substitutes of section 5 replaced by what they stand for. */
  function Standard(s: string): (r: string)
    ensures |r| == |s|
  {
    Swap(Swap(s, '-', '+'), '_', '/')
  }

  /** The text that decodeBase64Url hands to atob. */
  function Restored(s: string): string {
    var t := Standard(s);
    t + if |t| % 4 == 2 then "==" else if |t| % 4 == 3 then "=" else ""
  }

  function Marks(k: nat): (r: string)
    ensures |r| == k && forall i :: 0 <= i < k ==> r[i] == '='
  {
    seq(k, _ => '=')
  }

  /** s is a decodable body in either alphabet, followed by k padding marks of those that would
      complete it. */
  predicate Spells(s: string, body: string, k: nat) {
    && s == body + Marks(k)
    && IsBody(Standard(body))
    && k <= if |body| % 4 == 2 then 2 else if |body| % 4 == 3 then 1 else 0
  }

  /** decodeBase64Url, up to the UTF-8 bytes. It inverts the encoder, accepts exactly a body with
      all, some or none of its padding, and reads the body's sextets. */
  method DecodeBase64Url(base64url: string) returns (bytes: Option<seq<Byte>>)
    ensures forall b: seq<Byte> :: base64url == EncodeBase64Url(b) ==> bytes == Some(b)
    ensures forall body: string, k: nat :: Spells(base64url, body, k) ==>
      bytes == Some(FromSextets(Sextets(Standard(body))))
    ensures bytes.Some? ==> exists body: string, k: nat :: Spells(base64url, body, k)
  {
    var base64 := Swap(Swap(base64url, '-', '+'), '_', '/');
    var pad := |base64| % 4;
    if pad == 2 {
      base64 := base64 + "==";
    } else if pad == 3 {
      base64 := base64 + "=";
    } else {
      assert base64 + "" == base64;
    }
    bytes := Atob(base64);
    assert bytes == Atob(Restored(base64url));
    forall b: seq<Byte> | base64url == EncodeBase64Url(b) ensures bytes == Some(b) {
      EncodeThenDecode(b);
    }
    forall body: string, k: nat | Spells(base64url, body, k)
      ensures bytes == Some(FromSextets(Sextets(Standard(body))))
    {
      SpelledDecodes(base64url, body, k);
    }
    if bytes.Some? {
      var body, k := DecodedIsSpelled(base64url);
    }
  }

  lemma StandardBody(body: string, k: nat)
    ensures Standard(body + Marks(k)) == Standard(body) + Marks(k)
  {}

  /** The padding is restored to what completes the body. */
  lemma RestoredBody(s: string, body: string, k: nat)
    requires Spells(s, body, k)
    ensures Restored(s) ==
      Standard(body) + if |body| % 4 == 2 then "==" else if |body| % 4 == 3 then "=" else ""
  {
    StandardBody(body, k);
  }

  lemma SpelledDecodes(s: string, body: string, k: nat)
    requires Spells(s, body, k)
    ensures Atob(Restored(s)) == Some(FromSextets(Sextets(Standard(body))))
  {
    var u := Standard(body);
    assert SextetOf('=').None?;
    RestoredBody(s, body, k);
    if |body| % 4 == 2 {
      AtobDropsTwo(u);
    } else if |body| % 4 == 3 {
      AtobDropsOne(u);
    } else {
      assert u + "" == u;
    }
  }

  /** Text that ends in k padding marks after the substitution did so before it. */
  lemma SplitMarks(s: string, u: string, k: nat)
    requires Standard(s) == u + Marks(k)
    ensures s == s[..|u|] + Marks(k) && Standard(s[..|u|]) == u
  {
    forall i | |u| <= i < |s| ensures s[i] == '=' {
      assert Standard(s)[i] == '=';
    }
    assert Standard(s[..|u|]) == Standard(s)[..|u|];
  }

  /** What dropping the padding drops. */
  lemma DroppedMarks(t: string) returns (k: nat)
    ensures t == Unpadded(t) + Marks(k)
    ensures k == 0 || (k <= 2 && |t| % 4 == 0)
  {
    k := |t| - |Unpadded(t)|;
  }

  lemma MarksAfterBody(n: nat, k: nat)
    requires k == 0 || (k <= 2 && (n + k) % 4 == 0)
    ensures k <= if n % 4 == 2 then 2 else if n % 4 == 3 then 1 else 0
  {}

  /** Marks that were appended belong to the marks at the end. */
  lemma MarksAtEnd(x: string, t: string, p: nat, u: string, k: nat)
    requires x == t + Marks(p) && x == u + Marks(k) && IsAlphabet(u)
    ensures p <= k && t == u + Marks(k - p)
  {
    assert SextetOf('=').None?;
    assert forall i :: 0 <= i < |u| ==> x[i] == u[i] && SextetOf(u[i]).Some?;
    assert |t| < |x| ==> x[|t|] == '=';
    assert |u| <= |t| && x[..|t|] == t && (u + Marks(k))[..|t|] == u + Marks(k - p);
  }

  lemma RestoredMarks(s: string) returns (p: nat)
    ensures Restored(s) == Standard(s) + Marks(p)
  {
    p := if |s| % 4 == 2 then 2 else if |s| % 4 == 3 then 1 else 0;
  }

  lemma DecodedIsSpelled(s: string) returns (body: string, k: nat)
    requires Atob(Restored(s)).Some?
    ensures Spells(s, body, k)
  {
    var p := RestoredMarks(s);
    var x := Restored(s);
    var u := Unpadded(x);
    var j := DroppedMarks(x);
    MarksAfterBody(|u|, j);
    MarksAtEnd(x, Standard(s), p, u, j);
    SplitMarks(s, u, j - p);
    body, k := s[..|u|], j - p;
  }

  // ----- round trip -----

  lemma CharRoundTrip(x: Sextet)
    ensures SextetOf(CharOf(x)) == Some(x)
    ensures CharOf(x) != '=' && CharOf(x) != '-' && CharOf(x) != '_'
  {}

  lemma CharsRoundTrip(x: seq<Sextet>)
    ensures IsAlphabet(Chars(x)) && Sextets(Chars(x)) == x
    ensures forall i :: 0 <= i < |x| ==> Chars(x)[i] != '=' && Chars(x)[i] != '-' && Chars(x)[i] != '_'
  {
    forall i | 0 <= i < |x|
      ensures SextetOf(Chars(x)[i]) == Some(x[i]) && Chars(x)[i] != '=' && Chars(x)[i] != '-' && Chars(x)[i] != '_'
    {
      CharRoundTrip(x[i]);
    }
  }

  lemma GroupBytes(a: Byte, b: Byte, c: Byte)
    ensures a / 4 * 4 + (a % 4 * 16 + b / 16) / 16 == a
    ensures (a % 4 * 16 + b / 16) % 16 * 16 + (b % 16 * 4 + c / 64) / 4 == b
    ensures (b % 16 * 4 + c / 64) % 4 * 64 + c % 64 == c
  {}

  lemma LongGroup(a: Byte, b: Byte, c: Byte, x: seq<Sextet>)
    ensures FromSextets([a / 4, a % 4 * 16 + b / 16, b % 16 * 4 + c / 64, c % 64] + x) == [a, b, c] + FromSextets(x)
  {
    var g: seq<Sextet> := [a / 4, a % 4 * 16 + b / 16, b % 16 * 4 + c / 64, c % 64];
    GroupBytes(a, b, c);
    assert (g + x)[4..] == x;
  }

  lemma {:induction false} GroupsRoundTrip(b: seq<Byte>)
    ensures FromSextets(ToSextets(b)) == b
    decreases |b|
  {
    if |b| == 0 {
    } else if |b| == 1 {
      GroupBytes(b[0], 0, 0);
    } else if |b| == 2 {
      GroupBytes(b[0], b[1], 0);
    } else {
      LongGroup(b[0], b[1], b[2], ToSextets(b[3..]));
      GroupsRoundTrip(b[3..]);
      assert b == [b[0], b[1], b[2]] + b[3..];
    }
  }

  lemma {:induction false} GroupsLength(b: seq<Byte>)
    ensures |ToSextets(b)| == 4 * (|b| / 3) + if |b| % 3 == 0 then 0 else |b| % 3 + 1
    decreases |b|
  {
    if |b| >= 3 {
      GroupsLength(b[3..]);
      assert |ToSextets(b)| == 4 + |ToSextets(b[3..])|;
    }
  }

  /** The number that sextets write, most significant first. */
  function SextetsValue(x: seq<Sextet>): nat {
    if x == [] then 0 else SextetsValue(x[..|x| - 1]) * 64 + x[|x| - 1]
  }

  lemma {:induction false} SextetsAppend(x: seq<Sextet>, y: seq<Sextet>)
    ensures SextetsValue(x + y) == SextetsValue(x) * Pow(64, |y|) + SextetsValue(y)
    decreases |y|
  {
    if y == [] {
      assert x + y == x;
    } else {
      var front, last := y[..|y| - 1], y[|y| - 1];
      assert (x + y)[..|x + y| - 1] == x + front;
      SextetsAppend(x, front);
      Rotate(SextetsValue(x), Pow(64, |front|), 64);
    }
  }

  /** Zero bits that fill up the last sextet: the factor that they contribute. */
  function Fill(n: nat): nat {
    if n % 3 == 0 then 1 else if n % 3 == 1 then 16 else 4
  }

  lemma MoreRoom(m: nat, n: nat, k: nat)
    requires Pow(64, m) == Pow(256, n) * k
    ensures Pow(64, m + 4) == Pow(256, n + 3) * k
  {
    PowAdd(64, m, 4);
    PowAdd(256, n, 3);
    assert Pow(64, 4) == 16777216 == Pow(256, 3);
    assert Pow(256, n) * k * 16777216 == Pow(256, n) * 16777216 * k;
  }

  lemma {:induction false} SextetsRoom(b: seq<Byte>)
    ensures Pow(64, |ToSextets(b)|) == Pow(256, |b|) * Fill(|b|)
    decreases |b|
  {
    if |b| >= 3 {
      SextetsRoom(b[3..]);
      assert |ToSextets(b)| == |ToSextets(b[3..])| + 4;
      FillDrops(|b|);
      MoreRoom(|ToSextets(b[3..])|, |b| - 3, Fill(|b|));
    } else {
      assert Pow(64, 0) == 1 && Pow(64, 2) == 4096 && Pow(64, 3) == 262144;
      assert Pow(256, 0) == 1 && Pow(256, 1) == 256 && Pow(256, 2) == 65536;
    }
  }

  lemma SextetsSnoc(x: seq<Sextet>, s: Sextet)
    ensures SextetsValue(x + [s]) == SextetsValue(x) * 64 + s
  {
    assert (x + [s])[..|x|] == x;
  }

  lemma SextetsOf(p: Sextet, q: Sextet, r: Sextet, s: Sextet)
    ensures SextetsValue([p, q]) == p * 64 + q
    ensures SextetsValue([p, q, r]) == (p * 64 + q) * 64 + r
    ensures SextetsValue([p, q, r, s]) == ((p * 64 + q) * 64 + r) * 64 + s
  {
    assert [] + [p] == [p] && [p] + [q] == [p, q] && [p, q] + [r] == [p, q, r] && [p, q, r] + [s] == [p, q, r, s];
    SextetsSnoc([], p);
    SextetsSnoc([p], q);
    SextetsSnoc([p, q], r);
    SextetsSnoc([p, q, r], s);
  }

  lemma BytesOf(a: Byte, b: Byte, c: Byte)
    ensures NatOf([a]) == a && NatOf([a, b]) == a * 256 + b && NatOf([a, b, c]) == (a * 256 + b) * 256 + c
  {
    assert [] + [a] == [a] && [a] + [b] == [a, b] && [a, b] + [c] == [a, b, c];
    NatSnoc([], a);
    NatSnoc([a], b);
    NatSnoc([a, b], c);
  }

  lemma GroupDigits(a: Byte, b: Byte, c: Byte)
    ensures ((a / 4 * 64 + (a % 4 * 16 + b / 16)) * 64 + (b % 16 * 4 + c / 64)) * 64 + c % 64 == (a * 256 + b) * 256 + c
    ensures a / 4 * 64 + a % 4 * 16 == a * 16
    ensures (a / 4 * 64 + (a % 4 * 16 + b / 16)) * 64 + b % 16 * 4 == (a * 256 + b) * 4
  {}

  lemma GroupValue(a: Byte, b: Byte, c: Byte)
    ensures SextetsValue([a / 4, a % 4 * 16 + b / 16, b % 16 * 4 + c / 64, c % 64]) == NatOf([a, b, c])
    ensures SextetsValue([a / 4, a % 4 * 16]) == NatOf([a]) * 16
    ensures SextetsValue([a / 4, a % 4 * 16 + b / 16, b % 16 * 4]) == NatOf([a, b]) * 4
  {
    SextetsOf(a / 4, a % 4 * 16 + b / 16, b % 16 * 4 + c / 64, c % 64);
    SextetsOf(a / 4, a % 4 * 16 + b / 16, b % 16 * 4, 0);
    SextetsOf(a / 4, a % 4 * 16, 0, 0);
    BytesOf(a, b, c);
    GroupDigits(a, b, c);
  }

  lemma JoinGroups(n: nat, p: nat, q: nat, r: nat, k: nat)
    requires q == p * k
    ensures n * q + r * k == (n * p + r) * k
  {}

  lemma OneByte(a: Byte)
    ensures SextetsValue(ToSextets([a])) == NatOf([a]) * Fill(1)
  {
    GroupValue(a, 0, 0);
    assert ToSextets([a]) == [a / 4, a % 4 * 16];
  }

  lemma TwoBytes(a: Byte, b: Byte)
    ensures SextetsValue(ToSextets([a, b])) == NatOf([a, b]) * Fill(2)
  {
    GroupValue(a, b, 0);
    assert ToSextets([a, b]) == [a / 4, a % 4 * 16 + b / 16, b % 16 * 4];
  }

  lemma JoinValues(g: seq<Sextet>, x: seq<Sextet>, first: seq<Byte>, rest: seq<Byte>, k: nat)
    requires SextetsValue(g) == NatOf(first) && SextetsValue(x) == NatOf(rest) * k
    requires Pow(64, |x|) == Pow(256, |rest|) * k
    ensures SextetsValue(g + x) == NatOf(first + rest) * k
  {
    SextetsAppend(g, x);
    NatAppend(first, rest);
    JoinGroups(NatOf(first), Pow(256, |rest|), Pow(64, |x|), NatOf(rest), k);
  }

  lemma FirstGroup(b: seq<Byte>) returns (g: seq<Sextet>)
    requires |b| >= 3
    ensures ToSextets(b) == g + ToSextets(b[3..]) && SextetsValue(g) == NatOf(b[..3])
  {
    GroupValue(b[0], b[1], b[2]);
    g := [b[0] / 4, b[0] % 4 * 16 + b[1] / 16, b[1] % 16 * 4 + b[2] / 64, b[2] % 64];
    assert b[..3] == [b[0], b[1], b[2]];
  }

  /** The sextets write the same number as the bytes, with zero bits filling up the last sextet of a
      short group, as section 4 of RFC 4648 asks. */
  lemma {:induction false} SextetsWriteBytes(b: seq<Byte>)
    ensures SextetsValue(ToSextets(b)) == NatOf(b) * Fill(|b|)
    decreases |b|
  {
    if |b| == 1 {
      OneByte(b[0]);
      assert b == [b[0]];
    } else if |b| == 2 {
      TwoBytes(b[0], b[1]);
      assert b == [b[0], b[1]];
    } else if |b| >= 3 {
      var g := FirstGroup(b);
      SextetsWriteBytes(b[3..]);
      SextetsRoom(b[3..]);
      FillDrops(|b|);
      JoinValues(g, ToSextets(b[3..]), b[..3], b[3..], Fill(|b|));
      assert b == b[..3] + b[3..];
    }
  }

  lemma FillDrops(n: nat)
    requires n >= 3
    ensures Fill(n) == Fill(n - 3)
  {}

  /** The two alphabets, as ASCII codes. */
  lemma Alphabets(x: Sextet)
    ensures x < 62 ==> UrlSafe([CharOf(x)]) == [CharOf(x)]
    ensures CharOf(x) as nat ==
      if x < 26 then 65 + x else if x < 52 then 97 + x - 26 else if x < 62 then 48 + x - 52 else if x == 62 then 43 else 47
    ensures UrlSafe([CharOf(62)]) == "-" && UrlSafe([CharOf(63)]) == "_"
  {}

  predicate Lacks(s: string, c: char) {
    forall i :: 0 <= i < |s| ==> s[i] != c
  }

  lemma StripPadding(u: string, n: nat)
    requires Lacks(u, '=')
    ensures StripEnd(u + Padding(n)) == u
  {
    assert StripEnd(u) == u;
    assert StripEnd(u + "=") == u by { assert (u + "=")[..|u|] == u; }
    assert StripEnd(u + "==") == u by { assert (u + "==")[..|u| + 1] == u + "="; }
    assert u + "" == u;
  }

  lemma SwapPadding(u: string, n: nat, a: char, b: char)
    requires a != '='
    ensures Swap(u + Padding(n), a, b) == Swap(u, a, b) + Padding(n)
  {}

  /** Text with the substitutes of section 5. */
  function UrlSafe(u: string): string {
    Swap(Swap(u, '+', '-'), '/', '_')
  }

  lemma SwapBack(u: string)
    requires Lacks(u, '-') && Lacks(u, '_') && Lacks(u, '=')
    ensures Standard(UrlSafe(u)) == u
    ensures Lacks(UrlSafe(u), '+') && Lacks(UrlSafe(u), '/') && Lacks(UrlSafe(u), '=')
  {}

  /** The note text is the groups in the URL-safe alphabet, with neither padding nor the two
      characters that need escaping. */
  lemma EncodedText(bytes: seq<Byte>)
    ensures EncodeBase64Url(bytes) == UrlSafe(Chars(ToSextets(bytes)))
    ensures Lacks(EncodeBase64Url(bytes), '+') && Lacks(EncodeBase64Url(bytes), '/')
    ensures Lacks(EncodeBase64Url(bytes), '=')
  {
    var u, n := Chars(ToSextets(bytes)), |bytes|;
    CharsRoundTrip(ToSextets(bytes));
    SwapBack(u);
    SwapPadding(u, n, '+', '-');
    SwapPadding(Swap(u, '+', '-'), n, '/', '_');
    StripPadding(UrlSafe(u), n);
  }

  lemma AtobDropsTwo(u: string)
    requires |u| % 4 == 2
    ensures Unpadded(u + "==") == u
  {
    assert (u + "==")[..|u|] == u;
  }

  lemma AtobDropsOne(u: string)
    requires |u| % 4 == 3 && Lacks(u, '=')
    ensures Unpadded(u + "=") == u
  {
    assert (u + "=")[..|u|] == u;
  }

  lemma Mod4(q: nat, c: nat)
    requires c < 4
    ensures (4 * q + c) % 4 == c
  {}

  lemma AtobPadded(u: string, n: nat)
    requires Lacks(u, '=') && |u| == 4 * (n / 3) + if n % 3 == 0 then 0 else n % 3 + 1
    ensures Atob(u + Padding(n)) == DecodeUnpadded(u) && |u| % 4 != 1
  {
    if n % 3 == 1 {
      Mod4(n / 3, 2);
      AtobDropsTwo(u);
    } else if n % 3 == 2 {
      Mod4(n / 3, 3);
      AtobDropsOne(u);
    } else {
      Mod4(n / 3, 0);
      assert u + Padding(n) == u;
    }
  }

  lemma UnpaddedRoundTrip(bytes: seq<Byte>)
    requires |ToSextets(bytes)| % 4 != 1
    ensures DecodeUnpadded(Chars(ToSextets(bytes))) == Some(bytes)
  {
    CharsRoundTrip(ToSextets(bytes));
    GroupsRoundTrip(bytes);
  }

  lemma AtobOfBtoa(bytes: seq<Byte>)
    ensures Atob(Btoa(bytes)) == Some(bytes)
  {
    CharsRoundTrip(ToSextets(bytes));
    GroupsLength(bytes);
    AtobPadded(Chars(ToSextets(bytes)), |bytes|);
    UnpaddedRoundTrip(bytes);
  }

  lemma RestoredUrl(u: string, n: nat)
    requires Lacks(u, '-') && Lacks(u, '_') && Lacks(u, '=')
    requires |u| == 4 * (n / 3) + if n % 3 == 0 then 0 else n % 3 + 1
    ensures Restored(UrlSafe(u)) == u + Padding(n)
  {
    Mod4(n / 3, if n % 3 == 0 then 0 else n % 3 + 1);
    SwapBack(u);
  }

  lemma PaddingRestored(bytes: seq<Byte>)
    ensures Restored(EncodeBase64Url(bytes)) == Btoa(bytes)
  {
    EncodedText(bytes);
    CharsRoundTrip(ToSextets(bytes));
    GroupsLength(bytes);
    RestoredUrl(Chars(ToSextets(bytes)), |bytes|);
  }

  /** Stripping the padding and restoring it from the length modulo four loses nothing: decoding
      the text of any byte string gives that string back. */
  lemma EncodeThenDecode(bytes: seq<Byte>)
    ensures Atob(Restored(EncodeBase64Url(bytes))) == Some(bytes)
  {
    PaddingRestored(bytes);
    AtobOfBtoa(bytes);
  }
}
