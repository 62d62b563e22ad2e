/** The relayer's withdrawal path: requests interleave at every await, sharing one set of pending
    nullifiers and the fee totals. */
module Withdrawals {
  import opened Results

  const FEE_SCALE: nat := 10000

  /** Relayer fee, rounded down. */
  function CalculateFee(amount: nat, feeBps: nat): (fee: nat)
    ensures 10000 * fee <= amount * feeBps < 10000 * fee + 10000
  {
    amount * feeBps / FEE_SCALE
  }

  /** A withdrawal request; only a version 2 request may spend a second nullifier. */
  datatype Request = Request(chain: nat, nullifier: nat, second: Option<nat>, amount: nat)

  function Nullifiers(r: Request): (ns: set<nat>)
    ensures forall n :: n in ns <==> n == r.nullifier || r.second == Some(n)
  {
    {r.nullifier} + if r.second.Some? then {r.second.value} else {}
  }

  datatype Config = Config(feeBps: nat, minAmount: nat, maxAmount: nat)

  /** What all requests share. */
  datatype Shared = Shared(pendingNullifiers: set<nat>, totalTransactions: nat, totalFeesEarned: nat)

  // ----- the atomic sections -----

  function Enter(s: Shared, key: nat): Shared {
    s.(pendingNullifiers := s.pendingNullifiers + {key})
  }

  function Leave(s: Shared, key: nat): Shared {
    s.(pendingNullifiers := s.pendingNullifiers - {key})
  }

  function Credit(s: Shared, fee: nat): Shared {
    s.(totalTransactions := s.totalTransactions + 1, totalFeesEarned := s.totalFeesEarned + fee)
  }

  class RelayerService {
    const feeBps: nat
    var pendingNullifiers: set<nat>
    var totalTransactions: nat
    var totalFeesEarned: nat

    constructor (feeBps: nat)
      ensures this.feeBps == feeBps && View() == Shared({}, 0, 0)
    {
      this.feeBps := feeBps;
      pendingNullifiers, totalTransactions, totalFeesEarned := {}, 0, 0;
    }

    function View(): Shared
      reads this
    {
      Shared(pendingNullifiers, totalTransactions, totalFeesEarned)
    }

    /** In-flight deduplication: the test and the insertion are one section. */
    method TryEnter(nullifierKey: nat) returns (entered: bool)
      modifies this
      ensures entered <==> nullifierKey !in old(pendingNullifiers)
      ensures View() == if entered then Enter(old(View()), nullifierKey) else old(View())
    {
      if nullifierKey in pendingNullifiers {
        return false;
      }
      pendingNullifiers := pendingNullifiers + {nullifierKey};
      entered := true;
    }

    method CreditRequest(fee: nat)
      modifies this
      ensures View() == Credit(old(View()), fee)
    {
      totalTransactions := totalTransactions + 1;
      totalFeesEarned := totalFeesEarned + fee;
    }

    method LeaveGuard(nullifierKey: nat)
      modifies this
      ensures View() == Leave(old(View()), nullifierKey)
    {
      pendingNullifiers := pendingNullifiers - {nullifierKey};
    }

    /** One request run without interruption from its nullifier check on. Whatever fails, the
        pending nullifiers end as they began; the totals move exactly if the submission succeeded,
        even when a later step throws and the caller sees an error. */
    method ProcessGuarded(nullifierKey: nat, amount: nat, isSpent: Result<bool>, submitOk: bool, markOk: bool)
        returns (ok: bool)
      modifies this
      ensures pendingNullifiers == old(pendingNullifiers)
      ensures
        var credited := nullifierKey !in old(pendingNullifiers) && isSpent == Ok(false) && submitOk;
        && (ok <==> credited && markOk)
        && totalTransactions == old(totalTransactions) + (if credited then 1 else 0)
        && totalFeesEarned == old(totalFeesEarned) + (if credited then CalculateFee(amount, feeBps) else 0)
        && (credited ==>
              var fee := totalFeesEarned - old(totalFeesEarned);
              10000 * fee <= amount * feeBps < 10000 * fee + 10000)
    {
      var fee := CalculateFee(amount, feeBps);
      var entered := TryEnter(nullifierKey);
      if !entered {
        return false;
      }
      ok := false;
      if isSpent == Ok(false) && submitOk {
        CreditRequest(fee);
        ok := markOk;
      }
      LeaveGuard(nullifierKey);
    }
  }

  // ----- interleavings -----

  datatype Phase =
    | Validating      // before the guard
    | Checking        // in the guard, waiting for the nullifier check
    | Submitting      // in the guard, waiting for the submission
    | Crediting       // in the guard, totals updated, marking the nullifier as used
    | Closed(credited: bool)

  predicate InGuard(p: Phase) {
    p.Checking? || p.Submitting? || p.Crediting?
  }

  predicate IsCredited(p: Phase) {
    p.Crediting? || p == Closed(true)
  }

  /** `spent` names, for every nullifier a chain has accepted, the request whose transaction
      spent it, if it was one of ours. `credits` lists the credited requests in order. */
  datatype System = System(
    shared: Shared,
    requests: map<nat, Request>,
    phases: map<nat, Phase>,
    submitted: set<nat>,
    spent: map<(nat, nat), Option<nat>>,
    credits: seq<nat>)

  datatype Event =
    | Arrive(id: nat, request: Request)
    | Refuse(id: nat)                       // validation, proof or asset check fails
    | Guard(id: nat)                        // the deduplication section
    | CheckPasses(id: nat)
    | CheckFails(id: nat)                   // spent, network error or timeout
    | Lands(id: nat)                        // the chain accepts the request's transaction
    | SpentElsewhere(chain: nat, nullifier: nat)
    | Confirmed(id: nat)                    // the submission answers before the timeout
    | SubmitFails(id: nat)                  // error or timeout; the transaction may still land
    | Finish(id: nat)                       // the used mark is made, or making it throws

  function Init(): System {
    System(Shared({}, 0, 0), map[], map[], {}, map[], [])
  }

  predicate PhaseIs(s: System, id: nat, p: Phase) {
    id in s.phases && s.phases[id] == p
  }

  predicate AllUnspent(s: System, r: Request) {
    forall n <- Nullifiers(r) :: (r.chain, n) !in s.spent
  }

  predicate LandedBy(s: System, id: nat) {
    id in s.requests && forall n <- Nullifiers(s.requests[id]) ::
      (s.requests[id].chain, n) in s.spent && s.spent[(s.requests[id].chain, n)] == Some(id)
  }

  predicate Enabled(c: Config, s: System, e: Event) {
    match e
    case Arrive(id, _) => id !in s.requests && id !in s.phases
    case Refuse(id) => PhaseIs(s, id, Validating)
    case Guard(id) =>
      PhaseIs(s, id, Validating) && id in s.requests && c.minAmount <= s.requests[id].amount <= c.maxAmount
    case CheckPasses(id) => PhaseIs(s, id, Checking)
    case CheckFails(id) => PhaseIs(s, id, Checking)
    case Lands(id) => id in s.submitted && id in s.requests && AllUnspent(s, s.requests[id])
    case SpentElsewhere(chain, n) => (chain, n) !in s.spent
    case Confirmed(id) => PhaseIs(s, id, Submitting) && LandedBy(s, id)
    case SubmitFails(id) => PhaseIs(s, id, Submitting)
    case Finish(id) => PhaseIs(s, id, Crediting)
  }

  function SetPhase(s: System, id: nat, p: Phase): System {
    s.(phases := s.phases[id := p])
  }

  function CloseGuard(s: System, id: nat, credited: bool): System
    requires id in s.requests
  {
    SetPhase(s, id, Closed(credited)).(shared := Leave(s.shared, s.requests[id].nullifier))
  }

  function MarkSpent(s: System, id: nat): System
    requires id in s.requests
  {
    var r := s.requests[id];
    s.(spent := s.spent + map n | n in Nullifiers(r) :: (r.chain, n) := Some(id))
  }

  function Step(c: Config, s: System, e: Event): System
    requires Enabled(c, s, e) && s.requests.Keys == s.phases.Keys
  {
    match e
    case Arrive(id, r) => s.(requests := s.requests[id := r], phases := s.phases[id := Validating])
    case Refuse(id) => SetPhase(s, id, Closed(false))
    case Guard(id) =>
      var key := s.requests[id].nullifier;
      if key in s.shared.pendingNullifiers then SetPhase(s, id, Closed(false))
      else SetPhase(s, id, Checking).(shared := Enter(s.shared, key))
    case CheckPasses(id) => SetPhase(s, id, Submitting).(submitted := s.submitted + {id})
    case CheckFails(id) => CloseGuard(s, id, false)
    case Lands(id) => MarkSpent(s, id)
    case SpentElsewhere(chain, n) => s.(spent := s.spent[(chain, n) := None])
    case Confirmed(id) =>
      SetPhase(s, id, Crediting).(
        shared := Credit(s.shared, CalculateFee(s.requests[id].amount, c.feeBps)), credits := s.credits + [id])
    case SubmitFails(id) => CloseGuard(s, id, false)
    case Finish(id) => CloseGuard(s, id, true)
  }

  // ----- what every interleaving keeps -----

  function SumFees(c: Config, requests: map<nat, Request>, ids: seq<nat>): nat {
    if ids == [] then 0
    else
      var last := ids[|ids| - 1];
      SumFees(c, requests, ids[..|ids| - 1]) + if last in requests then CalculateFee(requests[last].amount, c.feeBps) else 0
  }

  function SumAmounts(requests: map<nat, Request>, ids: seq<nat>): nat {
    if ids == [] then 0
    else
      var last := ids[|ids| - 1];
      SumAmounts(requests, ids[..|ids| - 1]) + if last in requests then requests[last].amount else 0
  }

  predicate Guarded(s: System, id: nat) {
    id in s.phases && InGuard(s.phases[id])
  }

  predicate CreditedIn(s: System, id: nat) {
    id in s.phases && IsCredited(s.phases[id])
  }

  predicate InBounds(c: Config, s: System, id: nat) {
    id in s.requests && c.minAmount <= s.requests[id].amount <= c.maxAmount
  }

  /** The set of pending nullifiers is exactly the nullifiers of the requests in the guarded
      section, and no two of those share one. */
  predicate GuardExact(s: System)
    requires s.requests.Keys == s.phases.Keys
  {
    && (forall id <- s.phases :: Guarded(s, id) ==> s.requests[id].nullifier in s.shared.pendingNullifiers)
    && (forall n <- s.shared.pendingNullifiers :: exists id <- s.phases :: Guarded(s, id) && s.requests[id].nullifier == n)
    && (forall i <- s.phases, j <- s.phases ::
          Guarded(s, i) && Guarded(s, j) && s.requests[i].nullifier == s.requests[j].nullifier ==> i == j)
  }

  predicate NoRepeats(ids: seq<nat>) {
    forall i, j :: 0 <= i < j < |ids| ==> ids[i] != ids[j]
  }

  /** The credited requests are each listed once, and each itself spent its nullifiers. */
  predicate CreditsExact(s: System) {
    && NoRepeats(s.credits)
    && (forall id <- s.credits :: CreditedIn(s, id) && LandedBy(s, id))
    && (forall id <- s.phases :: CreditedIn(s, id) ==> id in s.credits)
  }

  predicate Inv(c: Config, s: System) {
    && s.requests.Keys == s.phases.Keys
    && GuardExact(s)
    && CreditsExact(s)
    && (forall id <- s.phases :: Guarded(s, id) || CreditedIn(s, id) ==> InBounds(c, s, id))
    && s.shared.totalTransactions == |s.credits|
    && s.shared.totalFeesEarned == SumFees(c, s.requests, s.credits)
  }

  lemma {:induction false} SumFeesFrame(c: Config, m: map<nat, Request>, m': map<nat, Request>, ids: seq<nat>)
    requires forall id <- ids :: id in m && id in m' && m[id] == m'[id]
    ensures SumFees(c, m, ids) == SumFees(c, m', ids)
    decreases |ids|
  {
    if ids != [] {
      assert ids[|ids| - 1] in ids;
      SumFeesFrame(c, m, m', ids[..|ids| - 1]);
    }
  }

  lemma PendingStep(c: Config, s: System, e: Event)
    requires Inv(c, s) && Enabled(c, s, e)
    ensures var s' := Step(c, s, e);
      forall n <- s'.shared.pendingNullifiers :: exists id <- s'.phases :: Guarded(s', id) && s'.requests[id].nullifier == n
  {
    var s' := Step(c, s, e);
    forall n | n in s'.shared.pendingNullifiers
      ensures exists id <- s'.phases :: Guarded(s', id) && s'.requests[id].nullifier == n
    {
      if n in s.shared.pendingNullifiers {
        var id :| id in s.phases && Guarded(s, id) && s.requests[id].nullifier == n;
        assert Guarded(s', id);
      } else {
        assert Guarded(s', e.id);
      }
    }
  }

  lemma DistinctStep(c: Config, s: System, e: Event)
    requires Inv(c, s) && Enabled(c, s, e)
    ensures var s' := Step(c, s, e);
      forall i <- s'.phases, j <- s'.phases ::
        Guarded(s', i) && Guarded(s', j) && s'.requests[i].nullifier == s'.requests[j].nullifier ==> i == j
  {
    var s' := Step(c, s, e);
    forall i, j | i in s'.phases && j in s'.phases && Guarded(s', i) && Guarded(s', j)
      && s'.requests[i].nullifier == s'.requests[j].nullifier
      ensures i == j
    {
      assert Guarded(s, i) || e == Guard(i);
      assert Guarded(s, j) || e == Guard(j);
    }
  }

  lemma HeldStep(c: Config, s: System, e: Event)
    requires Inv(c, s) && Enabled(c, s, e)
    ensures var s' := Step(c, s, e);
      forall id <- s'.phases :: Guarded(s', id) ==> s'.requests[id].nullifier in s'.shared.pendingNullifiers
  {
    var s' := Step(c, s, e);
    forall id | id in s'.phases && Guarded(s', id) ensures s'.requests[id].nullifier in s'.shared.pendingNullifiers {
      assert Guarded(s, id) || e == Guard(id);
    }
  }

  lemma GuardStep(c: Config, s: System, e: Event)
    requires Inv(c, s) && Enabled(c, s, e)
    ensures var s' := Step(c, s, e); s'.requests.Keys == s'.phases.Keys && GuardExact(s')
  {
    PendingStep(c, s, e);
    DistinctStep(c, s, e);
    HeldStep(c, s, e);
  }

  lemma LandedStep(c: Config, s: System, e: Event)
    requires Inv(c, s) && Enabled(c, s, e)
    ensures var s' := Step(c, s, e); forall id <- s'.credits :: LandedBy(s', id)
  {
    var s' := Step(c, s, e);
    forall id | id in s'.credits ensures LandedBy(s', id) {
      if id in s.credits {
        assert CreditedIn(s, id) && LandedBy(s, id);
      }
    }
  }

  lemma ListedStep(c: Config, s: System, e: Event)
    requires Inv(c, s) && Enabled(c, s, e)
    ensures var s' := Step(c, s, e); NoRepeats(s'.credits) && forall id <- s'.credits :: CreditedIn(s', id)
  {
    var s' := Step(c, s, e);
    forall id | id in s'.credits ensures CreditedIn(s', id) {
      if id in s.credits { assert CreditedIn(s, id); }
    }
  }

  lemma CreditStep(c: Config, s: System, e: Event)
    requires Inv(c, s) && Enabled(c, s, e)
    ensures CreditsExact(Step(c, s, e))
  {
    LandedStep(c, s, e);
    ListedStep(c, s, e);
  }

  lemma BoundsStep(c: Config, s: System, e: Event)
    requires Inv(c, s) && Enabled(c, s, e)
    ensures var s' := Step(c, s, e);
      forall id <- s'.phases :: Guarded(s', id) || CreditedIn(s', id) ==> InBounds(c, s', id)
  {
    var s' := Step(c, s, e);
    forall id | id in s'.phases && (Guarded(s', id) || CreditedIn(s', id)) ensures InBounds(c, s', id) {
      assert id in s.phases;
      if Guarded(s, id) || CreditedIn(s, id) {
        assert InBounds(c, s, id);
      }
    }
  }

  lemma SumStays(c: Config, s: System, e: Event)
    requires Inv(c, s) && Enabled(c, s, e)
    ensures SumFees(c, Step(c, s, e).requests, s.credits) == SumFees(c, s.requests, s.credits)
  {
    var s' := Step(c, s, e);
    forall id | id in s.credits ensures id in s.requests && id in s'.requests && s.requests[id] == s'.requests[id] {
      assert CreditedIn(s, id);
    }
    SumFeesFrame(c, s.requests, s'.requests, s.credits);
  }

  lemma OneMoreCredit(c: Config, requests: map<nat, Request>, ids: seq<nat>, id: nat)
    requires id in requests
    ensures SumFees(c, requests, ids + [id]) == SumFees(c, requests, ids) + CalculateFee(requests[id].amount, c.feeBps)
  {
    assert (ids + [id])[..|ids|] == ids;
  }

  lemma TotalsStep(c: Config, s: System, e: Event)
    requires Inv(c, s) && Enabled(c, s, e)
    ensures var s' := Step(c, s, e);
      && s'.shared.totalTransactions == |s'.credits|
      && s'.shared.totalFeesEarned == SumFees(c, s'.requests, s'.credits)
  {
    SumStays(c, s, e);
    if e.Confirmed? { OneMoreCredit(c, Step(c, s, e).requests, s.credits, e.id); }
  }

  lemma StepKeepsInv(c: Config, s: System, e: Event)
    requires Inv(c, s) && Enabled(c, s, e)
    ensures Inv(c, Step(c, s, e))
  {
    GuardStep(c, s, e);
    CreditStep(c, s, e);
    BoundsStep(c, s, e);
    TotalsStep(c, s, e);
  }

  /** s is reached from the empty system by the events es. */
  ghost predicate Reaches(c: Config, es: seq<Event>, s: System)
    decreases |es|
  {
    if es == [] then s == Init()
    else
      exists before: System ::
        && Reaches(c, es[..|es| - 1], before) && before.requests.Keys == before.phases.Keys
        && Enabled(c, before, es[|es| - 1]) && s == Step(c, before, es[|es| - 1])
  }

  /** In every interleaving, with any errors and timeouts, the pending nullifiers are exactly those
      of the requests inside the guarded section, no two of which share one, and the totals are
      those of the credited requests. */
  lemma {:induction false} EveryInterleaving(c: Config, es: seq<Event>, s: System)
    requires Reaches(c, es, s)
    ensures Inv(c, s)
    decreases |es|
  {
    if es != [] {
      var before :| Reaches(c, es[..|es| - 1], before) && before.requests.Keys == before.phases.Keys
        && Enabled(c, before, es[|es| - 1]) && s == Step(c, before, es[|es| - 1]);
      EveryInterleaving(c, es[..|es| - 1], before);
      StepKeepsInv(c, before, es[|es| - 1]);
    }
  }

  /** No nullifier, first or second, is credited twice on one chain. */
  lemma CreditedOnce(c: Config, es: seq<Event>, s: System, i: nat, j: nat)
    requires Reaches(c, es, s) && i < j < |s.credits|
    ensures s.credits[i] in s.requests && s.credits[j] in s.requests
    ensures
      var a, b := s.requests[s.credits[i]], s.requests[s.credits[j]];
      a.chain == b.chain ==> Nullifiers(a) !! Nullifiers(b)
  {
    EveryInterleaving(c, es, s);
    assert LandedBy(s, s.credits[i]) && LandedBy(s, s.credits[j]);
  }

  lemma FeeRoundsDown(amount: nat, feeBps: nat)
    ensures 0 <= amount * feeBps - 10000 * CalculateFee(amount, feeBps) <= 9999
  {}

  lemma OneMoreFee(feeBps: nat, amounts: nat, fees: nat, n: nat, amount: nat)
    requires 0 <= feeBps * amounts - 10000 * fees <= 9999 * n
    ensures 0 <= feeBps * (amounts + amount) - 10000 * (fees + CalculateFee(amount, feeBps)) <= 9999 * (n + 1)
  {
    FeeRoundsDown(amount, feeBps);
    assert feeBps * (amounts + amount) == feeBps * amounts + amount * feeBps;
  }

  lemma {:induction false} FeesRoundDown(c: Config, requests: map<nat, Request>, ids: seq<nat>)
    ensures 0 <= c.feeBps * SumAmounts(requests, ids) - 10000 * SumFees(c, requests, ids) <= 9999 * |ids|
    decreases |ids|
  {
    if ids != [] {
      var front, last := ids[..|ids| - 1], ids[|ids| - 1];
      FeesRoundDown(c, requests, front);
      if last in requests {
        OneMoreFee(c.feeBps, SumAmounts(requests, front), SumFees(c, requests, front), |front|, requests[last].amount);
      }
    }
  }

  /** The fees earned are the exact share of what was credited, rounded down once per credited
      transaction; and with nothing in flight no nullifier stays locked. */
  lemma Accounting(c: Config, es: seq<Event>, s: System)
    requires Reaches(c, es, s)
    ensures 0 <= c.feeBps * SumAmounts(s.requests, s.credits) - 10000 * s.shared.totalFeesEarned
              <= 9999 * s.shared.totalTransactions
    ensures (forall id <- s.phases :: !Guarded(s, id)) ==> s.shared.pendingNullifiers == {}
  {
    EveryInterleaving(c, es, s);
    FeesRoundDown(c, s.requests, s.credits);
  }

  lemma ReachNext(c: Config, es: seq<Event>, s: System, e: Event) returns (es': seq<Event>, s': System)
    requires Reaches(c, es, s) && s.requests.Keys == s.phases.Keys && Enabled(c, s, e)
    ensures Reaches(c, es', s') && s' == Step(c, s, e)
  {
    es', s' := es + [e], Step(c, s, e);
    assert es'[..|es|] == es;
  }

  // ----- all nullifiers of a request -----

  /** No nullifier, first or second, belongs to two requests inside the guarded section. */
  predicate Apart(s: System)
    requires s.requests.Keys == s.phases.Keys
  {
    forall i <- s.phases, j <- s.phases ::
      Guarded(s, i) && Guarded(s, j) && i != j ==> Nullifiers(s.requests[i]) !! Nullifiers(s.requests[j])
  }

  /** A request at the guard is turned away, or shares no nullifier with one inside. */
  predicate EntersApart(s: System, id: nat)
    requires s.requests.Keys == s.phases.Keys && id in s.requests
  {
    || s.requests[id].nullifier in s.shared.pendingNullifiers
    || forall j <- s.phases :: Guarded(s, j) ==> Nullifiers(s.requests[id]) !! Nullifiers(s.requests[j])
  }

  /** Entering the guard keeps the requests inside apart exactly when the one at the guard is turned
      away for its first nullifier, or shares no nullifier with one inside. */
  lemma GuardApartExact(c: Config, s: System, id: nat)
    requires Inv(c, s) && Apart(s) && Enabled(c, s, Guard(id))
    ensures Apart(Step(c, s, Guard(id))) <==> EntersApart(s, id)
  {
    var s' := Step(c, s, Guard(id));
    if s.requests[id].nullifier in s.shared.pendingNullifiers {
      assert forall i <- s.phases :: Guarded(s', i) ==> Guarded(s, i);
    } else {
      assert Guarded(s', id) && !Guarded(s, id);
      assert forall i <- s.phases :: i != id ==> (Guarded(s', i) <==> Guarded(s, i));
    }
  }

  /** The requests inside after s' were inside in s. */
  predicate NoneNew(s: System, s': System) {
    forall i <- s'.phases :: Guarded(s', i) ==>
      Guarded(s, i) && i in s.requests && i in s'.requests && s'.requests[i] == s.requests[i]
  }

  lemma NobodyEnters(c: Config, s: System, e: Event)
    requires s.requests.Keys == s.phases.Keys && Enabled(c, s, e) && !e.Guard?
    ensures NoneNew(s, Step(c, s, e))
  {}

  lemma FewerStayApart(s: System, s': System)
    requires s.requests.Keys == s.phases.Keys && s'.requests.Keys == s'.phases.Keys
    requires Apart(s) && NoneNew(s, s')
    ensures Apart(s')
  {}

  /** No other event brings two requests with a common nullifier together. */
  lemma OthersKeepApart(c: Config, s: System, e: Event)
    requires Inv(c, s) && Apart(s) && Enabled(c, s, e) && !e.Guard?
    ensures Step(c, s, e).requests.Keys == Step(c, s, e).phases.Keys && Apart(Step(c, s, e))
  {
    GuardStep(c, s, e);
    NobodyEnters(c, s, e);
    FewerStayApart(s, Step(c, s, e));
  }

  /** The states that a run passes through. */
  predicate IsTrace(c: Config, es: seq<Event>, ss: seq<System>) {
    && |ss| == |es| + 1 && ss[0] == Init()
    && (forall i :: 0 <= i <= |es| ==> ss[i].requests.Keys == ss[i].phases.Keys)
    && forall i :: 0 <= i < |es| ==> Enabled(c, ss[i], es[i]) && ss[i + 1] == Step(c, ss[i], es[i])
  }

  lemma {:induction false} TraceKeepsInv(c: Config, es: seq<Event>, ss: seq<System>, n: nat)
    requires IsTrace(c, es, ss) && n <= |es|
    ensures Inv(c, ss[n])
    decreases n
  {
    if n > 0 {
      TraceKeepsInv(c, es, ss, n - 1);
      StepKeepsInv(c, ss[n - 1], es[n - 1]);
    }
  }

  lemma ApartStep(c: Config, s: System, e: Event)
    requires Inv(c, s) && Apart(s) && Enabled(c, s, e)
    ensures Step(c, s, e).requests.Keys == Step(c, s, e).phases.Keys
    ensures Apart(Step(c, s, e)) <==> (e.Guard? ==> EntersApart(s, e.id))
  {
    StepKeepsInv(c, s, e);
    if e.Guard? { GuardApartExact(c, s, e.id); } else { OthersKeepApart(c, s, e); }
  }

  /** Every request that came to the guard in the first n events was turned away or shared no
      nullifier with one inside. */
  predicate EntriesApart(c: Config, es: seq<Event>, ss: seq<System>, n: nat)
    requires IsTrace(c, es, ss) && n <= |es|
  {
    forall i :: 0 <= i < n && es[i].Guard? ==> EntersApart(ss[i], es[i].id)
  }

  predicate AllApart(c: Config, es: seq<Event>, ss: seq<System>, n: nat)
    requires IsTrace(c, es, ss) && n <= |es|
  {
    forall i :: 0 <= i <= n ==> Apart(ss[i])
  }

  lemma OneMoreState(c: Config, es: seq<Event>, ss: seq<System>, n: nat)
    requires IsTrace(c, es, ss) && n < |es|
    ensures AllApart(c, es, ss, n + 1) <==> AllApart(c, es, ss, n) && Apart(ss[n + 1])
    ensures EntriesApart(c, es, ss, n + 1) <==>
      EntriesApart(c, es, ss, n) && (es[n].Guard? ==> EntersApart(ss[n], es[n].id))
  {}

  lemma OneMoreApart(c: Config, es: seq<Event>, ss: seq<System>, n: nat)
    requires IsTrace(c, es, ss) && n < |es| && AllApart(c, es, ss, n)
    ensures Apart(ss[n + 1]) <==> (es[n].Guard? ==> EntersApart(ss[n], es[n].id))
  {
    TraceKeepsInv(c, es, ss, n);
    assert Apart(ss[n]);
    ApartStep(c, ss[n], es[n]);
  }

  /** In every run the guard keeps requests apart on all their nullifiers throughout exactly when
      no request that it lets in shares one with a request inside. */
  lemma {:induction false} ApartExact(c: Config, es: seq<Event>, ss: seq<System>, n: nat)
    requires IsTrace(c, es, ss) && n <= |es|
    ensures AllApart(c, es, ss, n) <==> EntriesApart(c, es, ss, n)
    decreases n
  {
    if n > 0 {
      ApartExact(c, es, ss, n - 1);
      OneMoreState(c, es, ss, n - 1);
      if AllApart(c, es, ss, n - 1) { OneMoreApart(c, es, ss, n - 1); }
    }
  }

  /** Without second nullifiers the guard is enough: requests inside are always apart. */
  lemma FirstNullifiersAreApart(c: Config, es: seq<Event>, s: System)
    requires Reaches(c, es, s)
    ensures s.requests.Keys == s.phases.Keys
    ensures (forall id <- s.phases :: Guarded(s, id) ==> s.requests[id].second.None?) ==> Apart(s)
  {
    EveryInterleaving(c, es, s);
  }

  /** Any two different requests within the bounds, with different first nullifiers, can be in the
      guarded section together, whatever else they share. */
  lemma TwoInside(c: Config, a: Request, b: Request) returns (es: seq<Event>, s: System)
    requires a.nullifier != b.nullifier
    requires c.minAmount <= a.amount <= c.maxAmount && c.minAmount <= b.amount <= c.maxAmount
    ensures Reaches(c, es, s) && Guarded(s, 0) && Guarded(s, 1)
    ensures 0 in s.requests && s.requests[0] == a && 1 in s.requests && s.requests[1] == b
  {
    es, s := [], Init();
    es, s := ReachNext(c, es, s, Arrive(0, a));
    es, s := ReachNext(c, es, s, Arrive(1, b));
    es, s := ReachNext(c, es, s, Guard(0));
    es, s := ReachNext(c, es, s, Guard(1));
  }

  /** The guard keys on the first nullifier alone. Two requests inside it may share their second
      one, or the second of one may be the first of the other, which need not have a second. */
  lemma SecondNullifierIsNotGuarded(c: Config, amount: nat)
      returns (es: seq<Event>, s: System, es': seq<Event>, s': System)
    requires c.minAmount <= amount <= c.maxAmount
    ensures Reaches(c, es, s) && Guarded(s, 0) && Guarded(s, 1)
    ensures 0 in s.requests && 1 in s.requests && s.requests[0].second == s.requests[1].second == Some(9)
    ensures Reaches(c, es', s') && Guarded(s', 0) && Guarded(s', 1)
    ensures 0 in s'.requests && 1 in s'.requests
      && s'.requests[0].second == Some(s'.requests[1].nullifier) && s'.requests[1].second.None?
  {
    es, s := TwoInside(c, Request(0, 1, Some(9), amount), Request(0, 2, Some(9), amount));
    es', s' := TwoInside(c, Request(0, 1, Some(2), amount), Request(0, 2, None, amount));
  }
}
