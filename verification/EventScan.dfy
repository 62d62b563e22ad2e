/** The scan of program transactions that recoverMerkleTreeFromEvents makes, newest first. */
module EventScan {
  import opened Results
  import opened Sets

  /** A decoded log event; fields that do not decode to a value of their kind are None. */
  datatype ChainEvent = ChainEvent(isInsertion: bool, ourPool: bool, leafIndex: Option<int>, commitment: Option<nat>)

  /** A page of signatures; a transaction that could not be fetched, or has no logs, is None. */
  type Page = seq<Option<seq<ChainEvent>>>

  predicate Useful(e: ChainEvent, target: nat) {
    && e.isInsertion && e.ourPool
    && e.leafIndex.Some? && 0 <= e.leafIndex.value < target
    && e.commitment.Some?
  }

  /** The first event seen for an index wins. */
  function Note(m: map<nat, nat>, e: ChainEvent, target: nat): map<nat, nat> {
    if Useful(e, target) && e.leafIndex.value !in m then m[e.leafIndex.value := e.commitment.value] else m
  }

  function NoteTx(m: map<nat, nat>, tx: seq<ChainEvent>, target: nat): map<nat, nat>
    decreases |tx|
  {
    if tx == [] then m else NoteTx(Note(m, tx[0], target), tx[1..], target)
  }

  function NotePage(m: map<nat, nat>, page: Page, target: nat): map<nat, nat>
    decreases |page|
  {
    if page == [] then m
    else NotePage(if page[0].Some? then NoteTx(m, page[0].value, target) else m, page[1..], target)
  }

  /** Everything found on at most maxPages pages, up to the first empty page. */
  function NotePages(m: map<nat, nat>, pages: seq<Page>, maxPages: nat, target: nat): map<nat, nat>
    decreases maxPages
  {
    if maxPages == 0 || pages == [] || pages[0] == [] then m
    else NotePages(NotePage(m, pages[0], target), pages[1..], maxPages - 1, target)
  }

  /** The first event of a transaction list that is useful for index i. */
  function FirstFor(events: seq<ChainEvent>, target: nat, i: nat): Option<nat> {
    if events == [] then None
    else if Useful(events[0], target) && events[0].leafIndex.value == i then events[0].commitment
    else FirstFor(events[1..], target, i)
  }

  function Flatten(page: Page): seq<ChainEvent> {
    if page == [] then [] else (if page[0].Some? then page[0].value else []) + Flatten(page[1..])
  }

  function FlattenPages(pages: seq<Page>, maxPages: nat): seq<ChainEvent>
    decreases maxPages
  {
    if maxPages == 0 || pages == [] || pages[0] == [] then []
    else Flatten(pages[0]) + FlattenPages(pages[1..], maxPages - 1)
  }

  lemma {:induction false} FirstForAppend(a: seq<ChainEvent>, b: seq<ChainEvent>, target: nat, i: nat)
    ensures FirstFor(a + b, target, i)
         == if FirstFor(a, target, i).Some? then FirstFor(a, target, i) else FirstFor(b, target, i)
    decreases |a|
  {
    if a == [] {
      assert a + b == b;
    } else {
      assert (a + b)[1..] == a[1..] + b;
      FirstForAppend(a[1..], b, target, i);
    }
  }

  /** m' is m with the first useful event of every index that m lacks. */
  ghost predicate Notes(m: map<nat, nat>, events: seq<ChainEvent>, target: nat, m': map<nat, nat>) {
    forall i: nat ::
      (if i in m' then Some(m'[i]) else None) == if i in m then Some(m[i]) else FirstFor(events, target, i)
  }

  lemma NotesNothing(m: map<nat, nat>, target: nat)
    ensures Notes(m, [], target, m)
  {}

  lemma {:induction false} NoteTxNotes(m: map<nat, nat>, tx: seq<ChainEvent>, target: nat)
    ensures Notes(m, tx, target, NoteTx(m, tx, target))
    decreases |tx|
  {
    if tx != [] { NoteTxNotes(Note(m, tx[0], target), tx[1..], target); }
  }

  lemma NotesCompose(m: map<nat, nat>, a: seq<ChainEvent>, m1: map<nat, nat>, b: seq<ChainEvent>, m2: map<nat, nat>,
                     target: nat)
    requires Notes(m, a, target, m1) && Notes(m1, b, target, m2)
    ensures Notes(m, a + b, target, m2)
  {
    forall i: nat
      ensures (if i in m2 then Some(m2[i]) else None) == if i in m then Some(m[i]) else FirstFor(a + b, target, i)
    {
      FirstForAppend(a, b, target, i);
      assert (if i in m1 then Some(m1[i]) else None) == if i in m then Some(m[i]) else FirstFor(a, target, i);
    }
  }

  lemma {:induction false} NotePageNotes(m: map<nat, nat>, page: Page, target: nat)
    ensures Notes(m, Flatten(page), target, NotePage(m, page, target))
    decreases |page|
  {
    if page != [] {
      var tx := if page[0].Some? then page[0].value else [];
      NoteTxNotes(m, tx, target);
      NotePageNotes(NoteTx(m, tx, target), page[1..], target);
      NotesCompose(m, tx, NoteTx(m, tx, target), Flatten(page[1..]), NotePage(m, page, target), target);
    }
  }

  lemma FirstPage(m: map<nat, nat>, page: Page, rest: seq<ChainEvent>, m2: map<nat, nat>, target: nat)
    requires Notes(NotePage(m, page, target), rest, target, m2)
    ensures Notes(m, Flatten(page) + rest, target, m2)
  {
    NotePageNotes(m, page, target);
    NotesCompose(m, Flatten(page), NotePage(m, page, target), rest, m2, target);
  }

  /** The scan finds for every index the first useful event on the pages it may read. */
  lemma {:induction false} NotePagesNotes(m: map<nat, nat>, pages: seq<Page>, maxPages: nat, target: nat)
    ensures Notes(m, FlattenPages(pages, maxPages), target, NotePages(m, pages, maxPages, target))
    decreases maxPages
  {
    if maxPages > 0 && pages != [] && pages[0] != [] {
      var m1 := NotePage(m, pages[0], target);
      var rest := FlattenPages(pages[1..], maxPages - 1);
      NotePagesNotes(m1, pages[1..], maxPages - 1, target);
      FirstPage(m, pages[0], rest, NotePages(m1, pages[1..], maxPages - 1, target), target);
      assert FlattenPages(pages, maxPages) == Flatten(pages[0]) + rest;
      assert NotePages(m, pages, maxPages, target) == NotePages(m1, pages[1..], maxPages - 1, target);
    } else {
      NotesNothing(m, target);
    }
  }

  /** The event is an insertion into our pool at index i, with a commitment. */
  predicate InsertsAt(e: ChainEvent, i: nat) {
    e.isInsertion && e.ourPool && e.leafIndex == Some(i) && e.commitment.Some?
  }

  /** events[k] is the first of the events that inserts into our pool at index i. */
  predicate FirstAt(events: seq<ChainEvent>, i: nat, k: nat) {
    k < |events| && InsertsAt(events[k], i) && forall j :: 0 <= j < k ==> !InsertsAt(events[j], i)
  }

  /** c is the commitment of the first insertion into our pool at index i. */
  ghost predicate FirstCommitment(events: seq<ChainEvent>, i: nat, c: nat) {
    exists k: nat :: FirstAt(events, i, k) && events[k].commitment == Some(c)
  }

  lemma {:induction false} FirstForFound(events: seq<ChainEvent>, target: nat, i: nat) returns (k: nat)
    requires FirstFor(events, target, i).Some?
    ensures i < target && FirstAt(events, i, k) && events[k].commitment == FirstFor(events, target, i)
    decreases |events|
  {
    if Useful(events[0], target) && events[0].leafIndex.value == i {
      k := 0;
    } else {
      var rest := events[1..];
      k := FirstForFound(rest, target, i);
      assert i < target && !InsertsAt(events[0], i);
      forall j | 0 <= j < k + 1 ensures !InsertsAt(events[j], i) {
        if j > 0 { assert events[j] == rest[j - 1]; }
      }
      k := k + 1;
    }
  }

  lemma {:induction false} FirstForMissing(events: seq<ChainEvent>, target: nat, i: nat)
    requires FirstFor(events, target, i).None? && i < target
    ensures forall e <- events :: !InsertsAt(e, i)
    decreases |events|
  {
    if events != [] {
      FirstForMissing(events[1..], target, i);
      assert events == [events[0]] + events[1..];
    }
  }

  // ----- the pages that are read -----

  lemma {:induction false} FlattenAppend(a: Page, b: Page)
    ensures Flatten(a + b) == Flatten(a) + Flatten(b)
    decreases |a|
  {
    if a == [] {
      assert a + b == b;
    } else {
      assert (a + b)[1..] == a[1..] + b;
      FlattenAppend(a[1..], b);
    }
  }

  lemma FlattenOne(tx: seq<ChainEvent>)
    ensures Flatten([Some(tx)]) == tx && Flatten([None]) == []
  {
    var some: Page, none: Page := [Some(tx)], [None];
    assert some[1..] == [] && none[1..] == [];
  }

  /** The pages one after the other. */
  function JoinPages(pages: seq<Page>): Page {
    if pages == [] then [] else JoinPages(pages[..|pages| - 1]) + pages[|pages| - 1]
  }

  lemma {:induction false} JoinFront(page: Page, rest: seq<Page>)
    ensures JoinPages([page] + rest) == page + JoinPages(rest)
    decreases |rest|
  {
    if rest == [] {
      assert [page] + rest == [page] && [page][..0] == [];
    } else {
      var n := |rest| - 1;
      assert ([page] + rest)[..n + 1] == [page] + rest[..n];
      JoinFront(page, rest[..n]);
    }
  }

  /** k pages are read: those before the first empty page, but no more than maxPages. */
  predicate PagesRead(pages: seq<Page>, maxPages: nat, k: nat) {
    && k <= maxPages && k <= |pages| && (forall p :: 0 <= p < k ==> pages[p] != [])
    && (k == maxPages || k == |pages| || pages[k] == [])
  }

  lemma RestIsRead(pages: seq<Page>, maxPages: nat, k: nat)
    requires PagesRead(pages, maxPages, k) && k > 0
    ensures pages[0] != [] && PagesRead(pages[1..], maxPages - 1, k - 1)
    ensures pages[..k] == [pages[0]] + pages[1..][..k - 1]
  {
    assert forall p :: 0 <= p < k - 1 ==> pages[1..][p] == pages[p + 1];
  }

  /** The events met are those of the pages that are read, in order. */
  lemma {:induction false} FlattenPagesExact(pages: seq<Page>, maxPages: nat, k: nat)
    requires PagesRead(pages, maxPages, k)
    ensures FlattenPages(pages, maxPages) == Flatten(JoinPages(pages[..k]))
    decreases k
  {
    if k == 0 {
      assert pages[..k] == [];
    } else {
      var rest := pages[1..];
      RestIsRead(pages, maxPages, k);
      FlattenPagesExact(rest, maxPages - 1, k - 1);
      JoinFront(pages[0], rest[..k - 1]);
      FlattenAppend(pages[0], JoinPages(rest[..k - 1]));
    }
  }

  // ----- stopping early -----

  ghost predicate Within(m: map<nat, nat>, target: nat) {
    forall i <- m :: i < target
  }

  function Below(n: nat): (s: set<nat>)
    ensures |s| == n
    ensures forall i: nat :: i in s <==> i < n
  {
    if n == 0 then {} else Below(n - 1) + {n - 1}
  }

  /** Once as many leaves are found as are wanted nothing more can be learned, so the scan's
      early exits do not change its result. */
  lemma FullIsFinal(m: map<nat, nat>, target: nat)
    requires Within(m, target) && |m| >= target
    ensures forall tx: seq<ChainEvent> :: NoteTx(m, tx, target) == m
    ensures forall page: Page :: NotePage(m, page, target) == m
    ensures forall pages: seq<Page>, k: nat :: NotePages(m, pages, k, target) == m
  {
    assert |m| == |m.Keys|;
    FullSubset(m.Keys, Below(target));
    forall i: nat | i < target ensures i in m { assert i in Below(target); }
    forall tx: seq<ChainEvent> ensures NoteTx(m, tx, target) == m { FullTx(m, tx, target); }
    forall page: Page ensures NotePage(m, page, target) == m { FullPage(m, page, target); }
    forall pages: seq<Page>, k: nat ensures NotePages(m, pages, k, target) == m { FullPages(m, pages, k, target); }
  }

  lemma {:induction false} FullTx(m: map<nat, nat>, tx: seq<ChainEvent>, target: nat)
    requires forall i: nat :: i < target ==> i in m
    ensures NoteTx(m, tx, target) == m
    decreases |tx|
  {
    if tx != [] { FullTx(m, tx[1..], target); }
  }

  lemma {:induction false} FullPage(m: map<nat, nat>, page: Page, target: nat)
    requires forall i: nat :: i < target ==> i in m
    ensures NotePage(m, page, target) == m
    decreases |page|
  {
    if page != [] {
      if page[0].Some? { FullTx(m, page[0].value, target); }
      FullPage(m, page[1..], target);
    }
  }

  lemma {:induction false} FullPages(m: map<nat, nat>, pages: seq<Page>, k: nat, target: nat)
    requires forall i: nat :: i < target ==> i in m
    ensures NotePages(m, pages, k, target) == m
    decreases k
  {
    if k > 0 && pages != [] && pages[0] != [] {
      FullPage(m, pages[0], target);
      FullPages(m, pages[1..], k - 1, target);
    }
  }

  /** The scan, with its early exits. For every index below the target that an insertion into our
      pool names it finds the commitment of the first such event, and nothing else. */
  method Scan(pages: seq<Page>, maxPages: nat, target: nat) returns (m: map<nat, nat>)
    ensures m == NotePages(map[], pages, maxPages, target)
    ensures Within(m, target)
    ensures forall i <- m :: i < target && FirstCommitment(FlattenPages(pages, maxPages), i, m[i])
    ensures forall e <- FlattenPages(pages, maxPages) ::
      (e.isInsertion && e.ourPool && e.leafIndex.Some? && 0 <= e.leafIndex.value < target && e.commitment.Some?)
      ==> e.leafIndex.value in m
  {
    m := ScanPages(pages, maxPages, target);
    var events := FlattenPages(pages, maxPages);
    NotePagesNotes(map[], pages, maxPages, target);
    forall i | i in m
      ensures i < target && FirstCommitment(events, i, m[i])
    {
      assert (if i in m then Some(m[i]) else None) == FirstFor(events, target, i);
      var k := FirstForFound(events, target, i);
    }
    forall e | e in events && e.isInsertion && e.ourPool && e.leafIndex.Some? && 0 <= e.leafIndex.value < target
        && e.commitment.Some?
      ensures e.leafIndex.value in m
    {
      var i: nat := e.leafIndex.value;
      assert (if i in m then Some(m[i]) else None) == FirstFor(events, target, i);
      if i !in m { FirstForMissing(events, target, i); }
    }
  }

  /** The loop over the pages. */
  method ScanPages(pages: seq<Page>, maxPages: nat, target: nat) returns (m: map<nat, nat>)
    ensures m == NotePages(map[], pages, maxPages, target)
    ensures Within(m, target)
  {
    m := map[];
    var page := 0;
    while page < maxPages
      invariant page <= maxPages && page <= |pages| && Within(m, target)
      invariant NotePages(m, pages[page..], maxPages - page, target) == NotePages(map[], pages, maxPages, target)
      decreases maxPages - page
    {
      if |m| >= target {
        FullIsFinal(m, target);
        break;
      }
      if page >= |pages| || pages[page] == [] {
        break;
      }
      m := ScanPage(m, pages[page], target);
      assert pages[page..][1..] == pages[page + 1..];
      page := page + 1;
    }
  }

  method ScanPage(m0: map<nat, nat>, signatures: Page, target: nat) returns (m: map<nat, nat>)
    requires Within(m0, target)
    ensures m == NotePage(m0, signatures, target)
    ensures Within(m, target)
  {
    m := m0;
    for i := 0 to |signatures|
      invariant Within(m, target)
      invariant NotePage(m, signatures[i..], target) == NotePage(m0, signatures, target)
    {
      if |m| >= target {
        FullIsFinal(m, target);
        return;
      }
      assert signatures[i..][1..] == signatures[i + 1..];
      var tx := signatures[i];
      if tx.None? {
        continue;
      }
      ghost var before := m;
      for j := 0 to |tx.value|
        invariant Within(m, target)
        invariant NoteTx(m, tx.value[j..], target) == NoteTx(before, tx.value, target)
      {
        assert tx.value[j..][1..] == tx.value[j + 1..];
        var event := tx.value[j];
        if event.isInsertion && event.ourPool {
          if event.leafIndex.Some? && 0 <= event.leafIndex.value < target && event.commitment.Some? {
            if event.leafIndex.value !in m {
              m := m[event.leafIndex.value := event.commitment.value];
            }
          }
        }
      }
    }
  }
}
