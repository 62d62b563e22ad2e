/** The string keys of the sparse tree's node map. */
module NodeKeys {
  import opened Numerals

  /** nodeKey: level and index in decimal, separated by a colon. */
  function NodeKey(level: nat, index: nat): string {
    Numeral(level, 10) + [':'] + Numeral(index, 10)
  }

  /** Different nodes have different keys, so the map may be keyed by the pairs themselves. */
  lemma NodeKeyInjective(l: nat, i: nat, l': nat, i': nat)
    ensures NodeKey(l, i) == NodeKey(l', i') <==> l == l' && i == i'
  {
    KeyParts(l, i);
    KeyParts(l', i');
  }

  lemma KeyParts(l: nat, i: nat)
    ensures Value(Before(NodeKey(l, i), ':'), 10) == l && Value(After(NodeKey(l, i), ':'), 10) == i
  {
    NumeralDigits(l, 10);
    NumeralRoundTrip(l, 10);
    NumeralRoundTrip(i, 10);
    SplitAtMark(Numeral(l, 10), ':', Numeral(i, 10));
  }
}
