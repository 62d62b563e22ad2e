/** Sizes of finite sets. */
module Sets {
  lemma {:induction false} SubsetCard<T>(s: set<T>, t: set<T>)
    requires s <= t
    ensures |s| <= |t|
    decreases s
  {
    if x :| x in s { SubsetCard(s - {x}, t - {x}); }
  }

  lemma FullSubset<T>(s: set<T>, t: set<T>)
    requires s <= t && |s| >= |t|
    ensures s == t
  {
    if x :| x in t && x !in s { SubsetCard(s, t - {x}); }
  }
}
